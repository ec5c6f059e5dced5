/** The in-place CSV parser (csv.c) over the tokenizer of include/str.h, and the
    plain split it refines. */
module Csv {
  import opened Bytes

  const NUL: Byte := 0
  const LF: Byte := 10
  const CR: Byte := 13
  const COMMA: Byte := 44
  const BOM: seq<Byte> := [0xef, 0xbb, 0xbf]

  predicate IsEol(b: Byte) { b == CR || b == LF }

  predicate NoNul(s: seq<Byte>) { forall k :: 0 <= k < |s| ==> s[k] != NUL }

  // ----- what a file means: its lines and their fields

  /** The first position of [i, hi) that is not a CR or LF, or `hi`. */
  function SkipEol(s: seq<Byte>, i: nat, hi: nat): (a: nat)
    requires i <= hi <= |s|
    ensures i <= a <= hi
    ensures forall k :: i <= k < a ==> IsEol(s[k])
    ensures a < hi ==> !IsEol(s[a])
    decreases hi - i
  {
    if i == hi || !IsEol(s[i]) then i else SkipEol(s, i + 1, hi)
  }

  /** The first CR or LF of [i, hi), or `hi`. */
  function LineEnd(s: seq<Byte>, i: nat, hi: nat): (b: nat)
    requires i <= hi <= |s|
    ensures i <= b <= hi
    ensures forall k :: i <= k < b ==> !IsEol(s[k])
    ensures b < hi ==> IsEol(s[b])
    decreases hi - i
  {
    if i == hi || IsEol(s[i]) then i else LineEnd(s, i + 1, hi)
  }

  datatype Line = Line(start: nat, end: nat)

  function Lines(s: seq<Byte>, i: nat, hi: nat): (r: seq<Line>)
    requires i <= hi <= |s|
    ensures forall j :: 0 <= j < |r| ==> i <= r[j].start < r[j].end <= hi
    decreases hi - i
  {
    var a := SkipEol(s, i, hi);
    if a == hi then [] else [Line(a, LineEnd(s, a, hi))] + Lines(s, LineEnd(s, a, hi), hi)
  }

  /** A maximal non-empty run of bytes of [i, hi) other than CR and LF. */
  predicate IsRun(s: seq<Byte>, i: nat, hi: nat, l: Line)
    requires hi <= |s|
  {
    && i <= l.start < l.end <= hi
    && (forall k :: l.start <= k < l.end ==> !IsEol(s[k]))
    && (l.start == i || IsEol(s[l.start - 1]))
    && (l.end == hi || IsEol(s[l.end]))
  }

  /** `Lines` lists exactly the maximal runs, from left to right. */
  lemma {:induction false} LinesAreRuns(s: seq<Byte>, i: nat, hi: nat)
    requires i <= hi <= |s|
    ensures forall l :: l in Lines(s, i, hi) <==> IsRun(s, i, hi, l)
    ensures forall j, k :: 0 <= j < k < |Lines(s, i, hi)| ==> Lines(s, i, hi)[j].end < Lines(s, i, hi)[k].start
    decreases hi - i
  {
    var a := SkipEol(s, i, hi);
    if a < hi {
      var b := LineEnd(s, a, hi);
      var first, rest := Line(a, b), Lines(s, b, hi);
      LinesAreRuns(s, b, hi);
      forall l ensures l in Lines(s, i, hi) <==> IsRun(s, i, hi, l) {
        RunIsFirstOrLater(s, i, hi, l);
      }
      forall l | l in rest ensures b < l.start {
        assert IsRun(s, b, hi, l);
      }
    } else {
      forall l ensures !IsRun(s, i, hi, l) {
        if i <= l.start < l.end <= hi {
          assert IsEol(s[l.start]);
        }
      }
    }
  }

  lemma {:induction false} RunIsFirstOrLater(s: seq<Byte>, i: nat, hi: nat, l: Line)
    requires i <= hi <= |s| && SkipEol(s, i, hi) < hi
    ensures var a := SkipEol(s, i, hi);
            var b := LineEnd(s, a, hi);
            IsRun(s, i, hi, l) <==> l == Line(a, b) || IsRun(s, b, hi, l)
  {
    var a := SkipEol(s, i, hi);
    var b := LineEnd(s, a, hi);
    assert !IsEol(s[a]) && a < b;
    if i <= l.start < a {
      assert IsEol(s[l.start]);
    } else if a < l.start <= b {
      assert !IsEol(s[l.start - 1]);
    } else if l.start == a <= l.end < b {
      assert !IsEol(s[l.end]);
    } else if l.start == a && b < l.end <= hi {
      assert IsEol(s[b]);
    }
  }

  /** The first comma in [i, hi), or `hi`. */
  function CommaFrom(s: seq<Byte>, i: nat, hi: nat): (c: nat)
    requires i <= hi <= |s|
    ensures i <= c <= hi
    ensures forall k :: i <= k < c ==> s[k] != COMMA
    ensures c < hi ==> s[c] == COMMA
    decreases hi - i
  {
    if i == hi || s[i] == COMMA then i else CommaFrom(s, i + 1, hi)
  }

  /** The comma-separated fields of the bytes in [i, hi). */
  function Fields(s: seq<Byte>, i: nat, hi: nat): (r: seq<Line>)
    requires i <= hi <= |s|
    ensures 1 <= |r|
    decreases hi - i
  {
    var c := CommaFrom(s, i, hi);
    if c == hi then [Line(i, hi)] else [Line(i, c)] + Fields(s, c + 1, hi)
  }

  /** How many commas stand in [lo, k). */
  function Count(s: seq<Byte>, lo: nat, k: nat): (n: nat)
    requires lo <= k <= |s|
    decreases k
  {
    if k == lo then 0 else Count(s, lo, k - 1) + if s[k - 1] == COMMA then 1 else 0
  }

  lemma {:induction false} CountGrows(s: seq<Byte>, lo: nat, i: nat, k: nat)
    requires lo <= i <= k <= |s|
    ensures Count(s, lo, i) <= Count(s, lo, k)
    ensures i < k && s[i] == COMMA ==> Count(s, lo, i) < Count(s, lo, k)
    ensures (forall j :: i <= j < k ==> s[j] != COMMA) ==> Count(s, lo, i) == Count(s, lo, k)
    decreases k - i
  {
    if i < k {
      CountGrows(s, lo, i, k - 1);
    }
  }

  /** The fields cover [i, hi) from end to end, one comma apart; none contains a
      comma, and `c` commas precede field number `c`. */
  lemma {:induction false} FieldBounds(s: seq<Byte>, lo: nat, i: nat, hi: nat, c: nat)
    requires lo <= i <= hi <= |s| && c < |Fields(s, i, hi)|
    ensures var f := Fields(s, i, hi)[c];
            && i <= f.start <= f.end <= hi
            && (c == 0 ==> f.start == i)
            && (c + 1 < |Fields(s, i, hi)| ==> Fields(s, i, hi)[c + 1].start == f.end + 1)
            && (forall k :: f.start <= k < f.end ==> s[k] != COMMA)
            && (f.end == hi <==> c == |Fields(s, i, hi)| - 1)
            && (f.end < hi ==> s[f.end] == COMMA)
            && Count(s, lo, f.end) == Count(s, lo, i) + c
    decreases hi - i
  {
    var e := CommaFrom(s, i, hi);
    CountGrows(s, lo, i, e);
    if 0 < c {
      FieldBounds(s, lo, e + 1, hi, c - 1);
    }
  }

  /** A line's columns: its first `n` fields; none at all for a line without a
      comma, except that the empty line has its one empty field. */
  function Columns(s: seq<Byte>, l: Line, n: nat): (r: seq<Line>)
    requires l.start <= l.end <= |s|
  {
    if l.start < l.end && CommaFrom(s, l.start, l.end) == l.end then []
    else var all := Fields(s, l.start, l.end); all[..Min(n, |all|)]
  }

  function Starts(fs: seq<Line>): (r: seq<nat>)
    ensures |r| == |fs| && forall c :: 0 <= c < |r| ==> r[c] == fs[c].start
  {
    if fs == [] then [] else [fs[0].start] + Starts(fs[1..])
  }

  // ----- the edit: which delimiters are overwritten

  /** Position `k` of the line [lo, hi) holds one of its first `n` commas. */
  predicate Cut(s: seq<Byte>, lo: nat, n: nat, k: nat)
    requires lo <= k < |s|
  {
    s[k] == COMMA && Count(s, lo, k) < n
  }

  /** A NUL-terminated string equal to `was[f.start..f.end]` stands at `f.start`. */
  ghost predicate StringAt(was: seq<Byte>, now: seq<Byte>, f: Line)
  {
    && f.start <= f.end < |was| && |now| == |was|
    && now[f.start..f.end] == was[f.start..f.end]
    && now[f.end] == NUL
  }

  /** A line cut at its first `n` commas and terminated reads back as columns. */
  lemma {:induction false} ColumnsReadBack(was: seq<Byte>, now: seq<Byte>, l: Line, n: nat, c: nat)
    requires |now| == |was| && l.start <= l.end < |was| && now[l.end] == NUL
    requires forall k :: l.start <= k < l.end ==> now[k] == if Cut(was, l.start, n, k) then NUL else was[k]
    requires c < |Columns(was, l, n)|
    ensures StringAt(was, now, Columns(was, l, n)[c])
  {
    hide CommaFrom;
    FieldBounds(was, l.start, l.start, l.end, c);
    var f := Fields(was, l.start, l.end)[c];
    assert f == Columns(was, l, n)[c];
    if f.end < l.end {
      assert Cut(was, l.start, n, f.end);
    }
  }

  // ----- include/str.h

  method Strnchrnul(data: array<Byte>, at: nat, max: nat, c: Byte) returns (i: nat)
    requires at + max <= data.Length < U32
    ensures if max == 0 then i == at else at <= i < at + max
    ensures forall k :: at <= k < i ==> data[k] != NUL && data[k] != c
    ensures i + 1 < at + max ==> data[i] == NUL || data[i] == c
  {
    if max == 0 {
      return at;
    }
    i := 0;
    while i < max && data[at + i] != NUL && data[at + i] != c
      invariant i <= max
      invariant forall k :: at <= k < at + i ==> data[k] != NUL && data[k] != c
    {
      i := i + 1;
    }
    if i == max {
      i := i - 1;
    }
    i := at + i;
  }

  datatype Tokenizer = Tokenizer(token: Option<nat>, state: Byte)

  /** One token ending at `delim`: the delimiter becomes NUL.  Without one, the
      token is valid only right after a delimiter, or for the lone empty string. */
  method Strntoken(data: array<Byte>, at: nat, max: nat, delim: Byte, t: Tokenizer)
    returns (valid: bool, t': Tokenizer, ghost end: nat)
    requires at + max <= data.Length < U32 && delim != NUL
    modifies data
    ensures max == 0 ==> !valid && t' == t && data[..] == old(data[..])
    ensures 0 < max ==> at <= end < at + max && t'.token == Some(at)
    ensures 0 < max ==> forall k :: at <= k < end ==> old(data[k]) != NUL && old(data[k]) != delim
    ensures 0 < max && end + 1 < at + max ==> old(data[end]) == NUL || old(data[end]) == delim
    ensures 0 < max && old(data[end]) == delim ==>
              valid && t'.state == delim && data[..] == old(data[..])[end := NUL]
    ensures 0 < max && old(data[end]) != delim ==>
              t'.state == t.state && data[..] == old(data[..]) &&
              (valid <==> (t.token.None? && max == 1 && data[at] == NUL) || (t.token.Some? && t.state == delim))
  {
    end := at;
    if max == 0 {
      return false, t, end;
    }
    var tokend := at + max - 1;
    var stateIsDelim := t.token.None? && max == 1 && data[at] == NUL;
    var isDelim := false;
    if t.token.Some? && delim == t.state {
      stateIsDelim := true;
    }
    var tmp := Strnchrnul(data, at, max, delim);
    if tmp < tokend {
      tokend := tmp;
    }
    if data[tokend] == delim {
      isDelim := true;
    }
    end := tokend;
    t' := Tokenizer(Some(at), t.state);
    if isDelim {
      t' := t'.(state := data[tokend]);
      data[tokend] := NUL;
      assert data[..] == old(data[..])[end := NUL];
      return true, t', end;
    }
    return stateIsDelim, t', end;
  }

  method IsUtf8Bom(data: array<Byte>, at: nat, size: nat) returns (r: bool)
    requires at + size <= data.Length
    ensures r <==> data[at..at + Min(3, size)] == BOM[..Min(3, size)]
  {
    var n := Min(3, size);
    r := data[at..at + n] == BOM[..n];
  }

  // ----- csv.c

  method Strlen(data: array<Byte>, at: nat, ghost end: nat) returns (n: nat)
    requires at <= end < data.Length && data[end] == NUL
    ensures at + n <= end && data[at + n] == NUL && forall k :: at <= k < at + n ==> data[k] != NUL
  {
    n := 0;
    while data[at + n] != NUL
      invariant at + n <= end && forall k :: at <= k < at + n ==> data[k] != NUL
      decreases end - at - n
    {
      n := n + 1;
    }
  }

  /** One step of the split: the token at `next` and its length.  Past a comma,
      or for the lone empty string, the token is valid and ends in NUL. */
  method NextColumn(data: array<Byte>, next: nat, left: nat, t: Tokenizer, ghost end: nat)
    returns (valid: bool, t': Tokenizer, len: nat)
    requires next <= end + 1 == next + left <= data.Length < U32
    requires data[end] == NUL && forall k :: next <= k < end ==> data[k] != NUL
    modifies data
    ensures left == 0 ==> !valid && data[..] == old(data[..])
    ensures 0 < left ==>
              var e := CommaFrom(old(data[..]), next, end);
              && t'.token.Some?
              && (valid <==> e < end || (t.token.None? && next == end) || (t.token.Some? && t.state == COMMA))
              && (valid ==> len == e - next && data[..] == old(data[..])[e := NUL])
              && ((t.token.Some? && t.state == COMMA) || e < end ==> t'.state == COMMA)
              && (!valid ==> data[..] == old(data[..]))
  {
    ghost var was := data[..];
    ghost var e;
    len := 0;
    valid, t', e := Strntoken(data, next, left, COMMA, t);
    if 0 < left {
      assert e == CommaFrom(was, next, end);
    }
    if valid {
      assert data[..] == was[e := NUL];
      len := Strlen(data, next, e);
    }
  }

  /** A line being split: `columns` are its first fields, the rest starts at
      `next`, and exactly the commas before `next` have been overwritten. */
  ghost predicate Splitting(was: seq<Byte>, now: seq<Byte>, line: nat, end: nat, next: nat, columns: seq<nat>)
    requires line <= end < |was| == |now| && line <= next <= end + 1
  {
    var all := Fields(was, line, end);
    && |columns| <= |all|
    && (forall c :: 0 <= c < |columns| ==> columns[c] == all[c].start)
    && (next <= end ==> |columns| < |all| && all[|columns|].start == next && Count(was, line, next) == |columns|)
    && (next == end + 1 ==> |columns| == |all| && Count(was, line, end) < |columns|)
    && (forall k :: line <= k < end && k < next ==> now[k] == if was[k] == COMMA then NUL else was[k])
    && (forall k :: 0 <= k < line || next <= k < |was| || k == end ==> now[k] == was[k])
  }

  lemma {:induction false} SplittingStep(was: seq<Byte>, now: seq<Byte>, line: nat, end: nat, next: nat,
                                         columns: seq<nat>, e: nat)
    requires line <= next <= end < |was| == |now| && was[end] == NUL
    requires Splitting(was, now, line, end, next, columns)
    requires e == CommaFrom(was, next, end)
    ensures Splitting(was, now[e := NUL], line, end, e + 1, columns + [next])
  {
    hide Fields, CommaFrom;
    FieldBounds(was, line, line, end, |columns|);
    assert e == Fields(was, line, end)[|columns|].end;
  }

  /** The first column only completes where there is a comma, or nothing. */
  ghost predicate Settled(was: seq<Byte>, line: nat, end: nat, next: nat, columns: seq<nat>, valid: bool)
    requires line <= end < |was|
  {
    && (columns == [] ==> next == line)
    && (columns != [] && line < end ==> CommaFrom(was, line, end) < end)
    && (!valid ==> next == end + 1 || (columns == [] && line < end == CommaFrom(was, line, end)))
  }

  lemma {:induction false} SplittingDone(was: seq<Byte>, now: seq<Byte>, line: nat, end: nat, next: nat,
                                         columns: seq<nat>, valid: bool, n: nat)
    requires line <= end < |was| == |now| && line <= next <= end + 1 && |columns| <= n
    requires Splitting(was, now, line, end, next, columns) && Settled(was, line, end, next, columns, valid)
    requires valid ==> |columns| == n
    ensures columns == Starts(Columns(was, Line(line, end), n))
    ensures forall k :: line <= k < end ==> now[k] == if Cut(was, line, n, k) then NUL else was[k]
  {
    forall k | line <= k < end
      ensures now[k] == if Cut(was, line, n, k) then NUL else was[k]
    {
      if next <= k {
        CountGrows(was, line, next, k);
      } else if next <= end {
        CountGrows(was, line, k, next);
      } else {
        CountGrows(was, line, k, end);
      }
    }
  }

  /** `NextColumn` seen as a step of the split. */
  method SplitOne(data: array<Byte>, next: nat, left: nat, t: Tokenizer,
                  ghost was: seq<Byte>, ghost line: nat, ghost end: nat, ghost columns: seq<nat>)
    returns (valid: bool, t': Tokenizer, next': nat)
    requires line <= end < |was| == data.Length < U32 && was[end] == NUL
    requires line <= next <= end + 1 == next + left
    requires forall k :: line <= k < end ==> was[k] != NUL
    requires Splitting(was, data[..], line, end, next, columns)
    modifies data
    ensures data.Length == |was|
    ensures !valid ==> next' == next && Splitting(was, data[..], line, end, next, columns)
    ensures valid ==> next <= end && next' == CommaFrom(was, next, end) + 1 && t'.token.Some?
    ensures valid ==> Splitting(was, data[..], line, end, next', columns + [next])
    ensures valid && next' <= end ==> t'.state == COMMA
    ensures next <= end ==> (valid <==> CommaFrom(was, next, end) < end || (t.token.None? && next == end) ||
                                        (t.token.Some? && t.state == COMMA))
  {
    ghost var now := data[..];
    var len;
    valid, t', len := NextColumn(data, next, left, t, end);
    next' := next;
    if valid {
      SplittingStep(was, now, line, end, next, columns, next + len);
      next' := next + len + 1;
    }
  }

  /** Splits one NUL-terminated line into at most `n` columns, in place. */
  method ParseCsvLine(data: array<Byte>, line: nat, max: nat, n: nat) returns (columns: seq<nat>)
    requires 1 <= max && line + max <= data.Length < U32
    requires data[line + max - 1] == NUL
    requires forall k :: line <= k < line + max - 1 ==> data[k] != NUL
    modifies data
    ensures columns == Starts(Columns(old(data[..]), Line(line, line + max - 1), n))
    ensures forall k :: line <= k < line + max - 1 ==>
              data[k] == if Cut(old(data[..]), line, n, k) then NUL else old(data[k])
    ensures forall k :: 0 <= k < line || line + max - 1 <= k < data.Length ==> data[k] == old(data[k])
  {
    hide Columns, Starts, Cut;
    ghost var was := data[..];
    ghost var end := line + max - 1;
    columns := [];
    var next, left, i := line, max, 0;
    var t := Tokenizer(None, 0);
    var valid := true;
    while i < n
      invariant i <= n && |columns| <= i
      invariant line <= next <= end + 1 == next + left
      invariant valid ==> |columns| == i && t.token.Some? == (0 < i)
      invariant valid && 0 < i && next <= end ==> t.state == COMMA
      invariant Settled(was, line, end, next, columns, valid)
      invariant Splitting(was, data[..], line, end, next, columns)
    {
      if valid {
        var next';
        valid, t, next' := SplitOne(data, next, left, t, was, line, end, columns);
        if valid {
          columns := columns + [next];
          left := left - (next' - next);
          next := next';
        }
      }
      i := i + 1;
    }
    SplittingDone(was, data[..], line, end, next, columns, valid, n);
  }

  // ----- the whole file

  /** The rows of [i, hi): one per line, holding where its columns start. */
  function Rows(s: seq<Byte>, i: nat, hi: nat, n: nat): (r: seq<seq<nat>>)
    requires i <= hi <= |s|
    decreases hi - i
  {
    var a := SkipEol(s, i, hi);
    if a == hi then []
    else var b := LineEnd(s, a, hi); [Starts(Columns(s, Line(a, b), n))] + Rows(s, b, hi, n)
  }

  lemma {:induction false} RowPerLine(s: seq<Byte>, i: nat, hi: nat, n: nat)
    requires i <= hi <= |s|
    ensures |Rows(s, i, hi, n)| == |Lines(s, i, hi)|
    ensures forall r :: 0 <= r < |Lines(s, i, hi)| ==>
              Rows(s, i, hi, n)[r] == Starts(Columns(s, Lines(s, i, hi)[r], n))
    decreases hi - i
  {
    var a := SkipEol(s, i, hi);
    if a < hi {
      RowPerLine(s, LineEnd(s, a, hi), hi, n);
    }
  }

  /** Commas on the current line before position `k`. */
  function Seen(s: seq<Byte>, from: nat, k: nat): (n: nat)
    requires from <= k <= |s|
    decreases k
  {
    if k == from || IsEol(s[k - 1]) then 0
    else Seen(s, from, k - 1) + if s[k - 1] == COMMA then 1 else 0
  }

  /** The delimiters the parser overwrites: the CR or LF right after a line,
      and the first `n` commas of each line. */
  predicate Overwritten(s: seq<Byte>, from: nat, n: nat, k: nat)
    requires k < |s|
  {
    from <= k && ((IsEol(s[k]) && from < k && !IsEol(s[k - 1])) || (s[k] == COMMA && Seen(s, from, k) < n))
  }

  function Edited(s: seq<Byte>, from: nat, n: nat, k: nat): (b: Byte)
    requires k < |s|
  {
    if Overwritten(s, from, n, k) then NUL else s[k]
  }

  lemma {:induction false} FieldsAgree(s: seq<Byte>, s': seq<Byte>, i: nat, hi: nat)
    requires i <= hi <= |s| == |s'| && forall k :: i <= k < hi ==> s[k] == s'[k]
    ensures Fields(s, i, hi) == Fields(s', i, hi) && CommaFrom(s, i, hi) == CommaFrom(s', i, hi)
    decreases hi - i
  {
    var c := CommaFrom(s, i, hi);
    if c < hi {
      FieldsAgree(s, s', c + 1, hi);
    }
  }

  lemma {:induction false} ColumnsAgree(s: seq<Byte>, s': seq<Byte>, l: Line, n: nat)
    requires l.start <= l.end <= |s| == |s'| && forall k :: l.start <= k < l.end ==> s[k] == s'[k]
    ensures Columns(s, l, n) == Columns(s', l, n)
  {
    FieldsAgree(s, s', l.start, l.end);
  }

  lemma {:induction false} CountAgrees(s: seq<Byte>, s': seq<Byte>, lo: nat, k: nat)
    requires lo <= k <= |s| == |s'| && forall j :: lo <= j < k ==> s[j] == s'[j]
    ensures Count(s, lo, k) == Count(s', lo, k)
    decreases k
  {
    if lo < k {
      CountAgrees(s, s', lo, k - 1);
    }
  }

  lemma {:induction false} SeenOnLine(s: seq<Byte>, from: nat, a: nat, k: nat)
    requires from <= a <= k <= |s| && (a == from || IsEol(s[a - 1]))
    requires forall j :: a <= j < k ==> !IsEol(s[j])
    ensures Seen(s, from, k) == Count(s, a, k)
    decreases k
  {
    if a < k {
      SeenOnLine(s, from, a, k - 1);
    }
  }

  /** Around one line: skipped CR and LF bytes stay, the line loses its first
      `n` commas, and the byte after it goes. */
  lemma {:induction false} LineEdits(s: seq<Byte>, from: nat, i: nat, hi: nat, n: nat)
    requires from <= i <= hi <= |s| && (i == from || IsEol(s[i - 1]))
    ensures var a := SkipEol(s, i, hi);
            var b := LineEnd(s, a, hi);
            && (forall k :: i <= k < a ==> !Overwritten(s, from, n, k))
            && (forall k :: a <= k < b ==> (Overwritten(s, from, n, k) <==> Cut(s, a, n, k)))
            && (a < b < hi ==> Overwritten(s, from, n, b))
  {
    var a := SkipEol(s, i, hi);
    var b := LineEnd(s, a, hi);
    forall k | i <= k < a ensures !Overwritten(s, from, n, k) {
      assert IsEol(s[k]) && (k == from || IsEol(s[k - 1]));
    }
    forall k | a <= k < b ensures Overwritten(s, from, n, k) <==> Cut(s, a, n, k) {
      assert a == i || IsEol(s[a - 1]);
      SeenOnLine(s, from, a, k);
    }
  }

  /** Skips the delimiters before a line and finds the one after it. */
  method NextLine(data: array<Byte>, line: nat, dataEnd: nat, ghost z: nat) returns (start: nat, end: nat)
    requires line < z <= dataEnd < data.Length < U32
    requires data[z] == NUL && forall k :: line <= k < z ==> data[k] != NUL
    ensures start == SkipEol(data[..], line, z)
    ensures end == LineEnd(data[..], start, z)
  {
    start, end := line, dataEnd;
    var max := dataEnd - line + 1;
    var found := true;
    while 0 < max && found
      invariant line <= start <= z && max == dataEnd - start + 1
      invariant forall k :: line <= k < start ==> IsEol(data[k])
      invariant found || !IsEol(data[start])
      decreases max, found
    {
      found := false;
      if data[start] == CR {
        start, max, found := start + 1, max - 1, true;
      }
      if 0 < max && data[start] == LF {
        start, max, found := start + 1, max - 1, true;
      }
    }
    var tmp := Strnchrnul(data, start, max, CR);
    if tmp < end {
      end := tmp;
    }
    tmp := Strnchrnul(data, start, max, LF);
    if tmp < end {
      end := tmp;
    }
    assert forall k :: start <= k < end ==> !IsEol(data[..][k]);
    assert end < z ==> IsEol(data[..][end]);
  }

  /** The buffer once every line before `line` has been dealt with. */
  ghost predicate EditedUpTo(was: seq<Byte>, now: seq<Byte>, from: nat, n: nat, line: nat)
  {
    && |now| == |was|
    && (forall k :: 0 <= k < |was| && k < line ==> now[k] == Edited(was, from, n, k))
    && (forall k :: 0 <= k < |was| && line <= k ==> now[k] == was[k])
  }

  /** Cutting the line [start, end) after terminating it brings the edit up to
      the next line. */
  lemma {:induction false} EditReaches(was: seq<Byte>, now: seq<Byte>, after: seq<Byte>, from: nat, n: nat, line: nat,
                                       hi: nat, start: nat, end: nat)
    requires from <= line < hi < |was| == |after| && (line == from || IsEol(was[line - 1])) && was[hi] == NUL
    requires start == SkipEol(was, line, hi) < hi && end == LineEnd(was, start, hi)
    requires EditedUpTo(was, now, from, n, line)
    requires forall k :: start <= k < end ==> after[k] == if Cut(now[end := NUL], start, n, k) then NUL else was[k]
    requires forall k :: 0 <= k < start || end <= k < |was| ==> after[k] == now[end := NUL][k]
    ensures EditedUpTo(was, after, from, n, end + 1)
  {
    LineEdits(was, from, line, hi, n);
    forall k | start <= k < end ensures after[k] == Edited(was, from, n, k) {
      CountAgrees(was, now[end := NUL], start, k);
    }
  }

  /** Ends the line [start, end) with NUL and splits it. */
  method CutLine(data: array<Byte>, start: nat, end: nat, n: nat) returns (columns: seq<nat>)
    requires start < end < data.Length < U32
    requires forall k :: start <= k < end ==> data[k] != NUL
    modifies data
    ensures columns == Starts(Columns(old(data[..]), Line(start, end), n))
    ensures forall k :: start <= k < end ==>
              data[k] == if Cut(old(data[..])[end := NUL], start, n, k) then NUL else old(data[k])
    ensures forall k :: 0 <= k < start || end <= k < data.Length ==> data[k] == old(data[..])[end := NUL][k]
  {
    hide Columns, Fields, Cut, Starts;
    ghost var was := data[..];
    data[end] := NUL;
    assert data[..] == was[end := NUL];
    ColumnsAgree(was, data[..], Line(start, end), n);
    columns := ParseCsvLine(data, start, end - start + 1, n);
  }

  /** Where parsing starts: after a byte order mark. */
  function Start(s: seq<Byte>, end: nat): (i: nat)
    requires end < |s|
  {
    if s[..Min(3, end + 1)] == BOM[..Min(3, end + 1)] then 3 else 0
  }

  /** Past the last line nothing is left but CR and LF. */
  lemma {:induction false} TailUnedited(was: seq<Byte>, now: seq<Byte>, from: nat, n: nat, line: nat, hi: nat)
    requires from <= line <= hi < |was| && (line == from || line == hi || IsEol(was[line - 1]))
    requires was[hi] == NUL && EditedUpTo(was, now, from, n, line) && SkipEol(was, line, hi) == hi
    ensures EditedUpTo(was, now, from, n, hi + 1)
  {
    if line < hi {
      LineEdits(was, from, line, hi, n);
    }
  }

  lemma {:induction false} EditsAreDelimiters(was: seq<Byte>, now: seq<Byte>, from: nat, n: nat, line: nat)
    requires EditedUpTo(was, now, from, n, line)
    ensures OnlyDelimiters(was, now)
  {
  }

  /** Every changed byte was a delimiter and is now NUL. */
  ghost predicate OnlyDelimiters(was: seq<Byte>, now: seq<Byte>)
  {
    |was| == |now| && forall k :: 0 <= k < |was| && now[k] != was[k] ==>
      now[k] == NUL && (IsEol(was[k]) || was[k] == COMMA)
  }

  lemma {:induction false} OneMore(was: seq<Byte>, now: seq<Byte>, k: nat)
    requires OnlyDelimiters(was, now) && k < |was| && (IsEol(was[k]) || was[k] == NUL)
    ensures OnlyDelimiters(was, now[k := NUL])
  {
  }

  lemma {:induction false} NotYetEdited(was: seq<Byte>, now: seq<Byte>, from: nat, n: nat, line: nat)
    requires EditedUpTo(was, now, from, n, line)
    ensures |now| == |was| && forall k :: line <= k < |was| ==> now[k] == was[k]
  {
  }

  /** `line` is where a line may start: at the start, or after a delimiter. */
  predicate Boundary(s: seq<Byte>, from: nat, line: nat, hi: nat)
    requires hi < |s|
  {
    from <= line <= hi && (line == from || line == hi || IsEol(s[line - 1]))
  }

  lemma {:induction false} RowsStep(s: seq<Byte>, from: nat, line: nat, hi: nat, n: nat)
    requires hi < |s| && Boundary(s, from, line, hi)
    ensures var a := SkipEol(s, line, hi);
            var b := LineEnd(s, a, hi);
            if a == hi then Rows(s, line, hi, n) == []
            else
              && Rows(s, line, hi, n) ==
                   [Starts(Columns(s, Line(a, b), n))] + (if b < hi then Rows(s, b + 1, hi, n) else [])
              && (b < hi ==> Boundary(s, from, b + 1, hi))
  {
    var a := SkipEol(s, line, hi);
    var b := LineEnd(s, a, hi);
    if a < hi && b < hi {
      assert SkipEol(s, b, hi) == SkipEol(s, b + 1, hi);
    }
  }

  /** `last` is the end-of-data flag: the line was ended by a NUL. */
  datatype Parsed = Row(columns: seq<nat>, last: bool) | NoMemory | NoLine

  /** One turn of the parser: the line at or after `line`, if there is one. */
  method ParseOne(data: array<Byte>, line: nat, dataEnd: nat, n: nat, allocOk: bool,
                  ghost z: nat, ghost was: seq<Byte>, ghost from: nat)
    returns (p: Parsed, next: nat)
    requires z <= dataEnd < |was| == data.Length < U32 && line < z && was[z] == NUL
    requires Boundary(was, from, line, z) && forall k :: from <= k < z ==> was[k] != NUL
    requires EditedUpTo(was, data[..], from, n, line)
    modifies data
    ensures var a := SkipEol(was, line, z);
            var b := LineEnd(was, a, z);
            if a == z then p == NoLine && next == z + 1
            else if !allocOk then p == NoMemory
            else p == Row(Starts(Columns(was, Line(a, b), n)), b == z) && next == b + 1
    ensures if p.NoMemory? then OnlyDelimiters(was, data[..]) else EditedUpTo(was, data[..], from, n, next)
  {
    hide EditedUpTo, Starts, Fields, Columns, Cut, SkipEol, LineEnd, CommaFrom, OnlyDelimiters;
    ghost var now := data[..];
    NotYetEdited(was, now, from, n, line);
    var start, end := NextLine(data, line, dataEnd, z);
    LinesAgree(was, now, line, z);
    next := end + 1;
    var last := data[end] == NUL;
    if start == dataEnd || end == start {
      data[end] := NUL;
      assert data[..] == now;
      TailUnedited(was, now, from, n, line, z);
      return NoLine, next;
    }
    if !allocOk {
      data[end] := NUL;
      EditsAreDelimiters(was, now, from, n, line);
      OneMore(was, now, end);
      assert data[..] == now[end := NUL];
      return NoMemory, next;
    }
    ColumnsAgree(was, now, Line(start, end), n);
    var columns := CutLine(data, start, end, n);
    EditReaches(was, now, data[..], from, n, line, z, start, end);
    return Row(columns, last), next;
  }

  lemma {:induction false} LinesAgree(s: seq<Byte>, s': seq<Byte>, i: nat, hi: nat)
    requires i <= hi <= |s| == |s'| && forall k :: i <= k < hi ==> s[k] == s'[k]
    ensures SkipEol(s, i, hi) == SkipEol(s', i, hi)
    ensures LineEnd(s, SkipEol(s, i, hi), hi) == LineEnd(s', SkipEol(s, i, hi), hi)
  {
  }

  /** The lines before `line` are done and have given `rows`. */
  ghost predicate Parsing(was: seq<Byte>, now: seq<Byte>, from: nat, hi: nat, n: nat, line: nat, rows: seq<seq<nat>>)
    requires from <= hi < |was|
  {
    && line <= hi + 1 && (line <= hi ==> Boundary(was, from, line, hi))
    && EditedUpTo(was, now, from, n, line)
    && Rows(was, from, hi, n) == rows + RowsFrom(was, line, hi, n)
  }

  function RowsFrom(s: seq<Byte>, line: nat, hi: nat, n: nat): (r: seq<seq<nat>>)
    requires hi <= |s|
  {
    if line <= hi then Rows(s, line, hi, n) else []
  }

  lemma {:induction false} ParsingStarts(s: seq<Byte>, from: nat, hi: nat, n: nat)
    requires from <= hi < |s|
    ensures Parsing(s, s, from, hi, n, from, [])
  {
    hide Rows;
  }

  // ----- stretches of text between NULs

  /** The first NUL at or after `i`, up to `end`. */
  function NulFrom(s: seq<Byte>, i: nat, end: nat): (z: nat)
    requires i <= end < |s|
    ensures i <= z <= end && (forall k :: i <= k < z ==> s[k] != NUL) && (z < end ==> s[z] == NUL)
    decreases end - i
  {
    if i == end || s[i] == NUL then i else NulFrom(s, i + 1, end)
  }

  /** The parser goes on behind the NUL at `z` only when the text [i, z) before
      it ends in two CR or LF, or is a single one. */
  predicate Continues(s: seq<Byte>, i: nat, z: nat)
    requires i < z <= |s|
  {
    IsEol(s[z - 1]) && (z - 1 == i || IsEol(s[z - 2]))
  }

  /** Every line the parser finds from `i` on, NULs included in the data. */
  function AllLines(s: seq<Byte>, i: nat, hi: nat): (r: seq<Line>)
    requires hi < |s| && s[hi] == NUL
    ensures forall j :: 0 <= j < |r| ==> i <= r[j].start < r[j].end <= hi
    decreases hi + 1 - i
  {
    if hi < i || s[i] == NUL then []
    else var z := NulFrom(s, i, hi); Lines(s, i, z) + if Continues(s, i, z) then AllLines(s, z + 1, hi) else []
  }

  /** The byte at `k` after a parse that found room for every row. */
  function AllEdited(s: seq<Byte>, i: nat, hi: nat, n: nat, k: nat): (b: Byte)
    requires hi < |s| && s[hi] == NUL && k < |s|
    ensures b == s[k] || (b == NUL && (IsEol(s[k]) || s[k] == COMMA))
    decreases hi + 1 - i
  {
    if hi < i || s[i] == NUL then s[k]
    else
      var z := NulFrom(s, i, hi);
      if k <= z then Edited(s, i, n, k)
      else if Continues(s, i, z) then AllEdited(s, z + 1, hi, n, k) else s[k]
  }

  predicate Inside(s: seq<Byte>, ls: seq<Line>)
  {
    forall r :: 0 <= r < |ls| ==> ls[r].start <= ls[r].end <= |s|
  }

  function RowsOf(s: seq<Byte>, ls: seq<Line>, n: nat): (r: seq<seq<nat>>)
    requires Inside(s, ls)
    ensures |r| == |ls| && forall k :: 0 <= k < |r| ==> r[k] == Starts(Columns(s, ls[k], n))
  {
    seq(|ls|, k requires 0 <= k < |ls| => Starts(Columns(s, ls[k], n)))
  }

  /** Where the loop stands: the stretch it is in starts at `seg`, when the data
      was `base` and the lines before it had been found. */
  datatype Stretch = Stretch(base: seq<Byte>, seg: nat, lines: seq<Line>)

  /** The stretches before `seg` are done. */
  ghost predicate Reached(was: seq<Byte>, from: nat, hi: nat, n: nat, g: Stretch)
    requires hi < |was| && was[hi] == NUL
  {
    && from <= g.seg && |g.base| == |was| && Inside(was, g.lines)
    && (forall k :: 0 <= k < |was| && k < g.seg ==> g.base[k] == AllEdited(was, from, hi, n, k))
    && (forall k :: g.seg <= k < |was| ==> g.base[k] == was[k])
    && (forall k :: g.seg <= k < |was| ==> AllEdited(was, from, hi, n, k) == AllEdited(was, g.seg, hi, n, k))
    && AllLines(was, from, hi) == g.lines + AllLines(was, g.seg, hi)
  }

  /** There is text at `seg`. */
  predicate HasText(s: seq<Byte>, seg: nat, hi: nat)
    requires hi < |s|
  {
    seg <= hi && s[seg] != NUL
  }

  /** `line` is the start, or stands right behind the delimiter that ended a line. */
  predicate AfterLine(s: seq<Byte>, seg: nat, line: nat)
  {
    line == seg || (seg + 2 <= line <= |s| && IsEol(s[line - 1]) && !IsEol(s[line - 2]))
  }

  ghost predicate Going(was: seq<Byte>, now: seq<Byte>, from: nat, hi: nat, n: nat, line: nat, rows: seq<seq<nat>>,
                        g: Stretch)
    requires hi < |was| && was[hi] == NUL
  {
    && Reached(was, from, hi, n, g) && |g.lines| <= |rows| && rows[..|g.lines|] == RowsOf(was, g.lines, n)
    && if HasText(was, g.seg, hi) then
         var z := NulFrom(was, g.seg, hi);
         line <= z && AfterLine(was, g.seg, line) && Parsing(g.base, now, g.seg, z, n, line, rows[|g.lines|..])
       else
         |rows| == |g.lines| && line == g.seg && now == g.base
  }

  /** What the whole loop has to do. */
  ghost predicate Finished(was: seq<Byte>, now: seq<Byte>, from: nat, hi: nat, n: nat, rows: seq<seq<nat>>)
    requires hi < |was| && was[hi] == NUL
  {
    && rows == RowsOf(was, AllLines(was, from, hi), n)
    && |now| == |was| && forall k :: 0 <= k < |was| ==> now[k] == AllEdited(was, from, hi, n, k)
  }

  lemma {:induction false} RowsAgree(s: seq<Byte>, s': seq<Byte>, i: nat, hi: nat, n: nat)
    requires i <= hi <= |s| == |s'| && forall k :: i <= k < hi ==> s[k] == s'[k]
    ensures Inside(s, Lines(s, i, hi)) && Rows(s', i, hi, n) == RowsOf(s, Lines(s, i, hi), n)
    decreases hi - i
  {
    hide SkipEol, LineEnd, Columns, Starts;
    var a := SkipEol(s, i, hi);
    LinesAgree(s, s', i, hi);
    if a < hi {
      var b := LineEnd(s, a, hi);
      ColumnsAgree(s, s', Line(a, b), n);
      RowsAgree(s, s', b, hi, n);
    }
  }

  lemma {:induction false} SeenAgrees(s: seq<Byte>, s': seq<Byte>, from: nat, k: nat)
    requires |s| == |s'| && from <= k <= |s| && forall j :: from <= j < k ==> s[j] == s'[j]
    ensures Seen(s, from, k) == Seen(s', from, k)
    decreases k
  {
    if from < k && k <= |s| {
      SeenAgrees(s, s', from, k - 1);
    }
  }

  lemma {:induction false} EditedAgrees(s: seq<Byte>, s': seq<Byte>, from: nat, n: nat, k: nat)
    requires |s| == |s'| && k < |s| && forall j :: from <= j <= k ==> s[j] == s'[j]
    ensures from <= k ==> Edited(s, from, n, k) == Edited(s', from, n, k)
    ensures k < from ==> Edited(s, from, n, k) == s[k] && Edited(s', from, n, k) == s'[k]
  {
    if from <= k {
      SeenAgrees(s, s', from, k);
    }
  }

  /** The stretch is done: its rows and its edits join those before it. */
  lemma {:induction false} StretchDone(was: seq<Byte>, now: seq<Byte>, from: nat, hi: nat, n: nat, rows: seq<seq<nat>>,
                                       g: Stretch)
    requires hi < |was| && was[hi] == NUL && Reached(was, from, hi, n, g) && HasText(was, g.seg, hi)
    requires |g.lines| <= |rows| && rows[..|g.lines|] == RowsOf(was, g.lines, n)
    requires Parsing(g.base, now, g.seg, NulFrom(was, g.seg, hi), n, NulFrom(was, g.seg, hi) + 1, rows[|g.lines|..])
    ensures var z := NulFrom(was, g.seg, hi);
            var ls := g.lines + Lines(was, g.seg, z);
            && Inside(was, ls) && rows == RowsOf(was, ls, n) && |now| == |was|
            && (forall k :: 0 <= k <= z ==> now[k] == AllEdited(was, from, hi, n, k))
            && (forall k :: z < k < |was| ==> now[k] == was[k])
  {
    hide Lines, Rows, Edited, RowsOf, AllLines, AllEdited;
    var z := NulFrom(was, g.seg, hi);
    RowsAgree(was, g.base, g.seg, z, n);
    JoinRows(was, g.lines, Lines(was, g.seg, z), n);
    assert rows == rows[..|g.lines|] + rows[|g.lines|..];
    forall k | 0 <= k <= z ensures now[k] == AllEdited(was, from, hi, n, k) {
      StretchEdit(was, now, from, hi, n, g, k);
    }
  }

  lemma {:induction false} JoinRows(s: seq<Byte>, a: seq<Line>, b: seq<Line>, n: nat)
    requires Inside(s, a) && Inside(s, b)
    ensures Inside(s, a + b) && RowsOf(s, a + b, n) == RowsOf(s, a, n) + RowsOf(s, b, n)
  {
    hide Columns, Starts;
  }

  lemma {:induction false} StretchEdit(was: seq<Byte>, now: seq<Byte>, from: nat, hi: nat, n: nat, g: Stretch, k: nat)
    requires hi < |was| && was[hi] == NUL && Reached(was, from, hi, n, g) && HasText(was, g.seg, hi)
    requires k <= NulFrom(was, g.seg, hi) && EditedUpTo(g.base, now, g.seg, n, NulFrom(was, g.seg, hi) + 1)
    ensures now[k] == AllEdited(was, from, hi, n, k)
  {
    hide AllLines, Edited;
    EditedAgrees(was, g.base, g.seg, n, k);
  }

  /** It was the last one. */
  lemma {:induction false} LastStretch(was: seq<Byte>, now: seq<Byte>, from: nat, hi: nat, n: nat, rows: seq<seq<nat>>,
                                       g: Stretch)
    requires hi < |was| && was[hi] == NUL && Reached(was, from, hi, n, g) && HasText(was, g.seg, hi)
    requires |g.lines| <= |rows| && rows[..|g.lines|] == RowsOf(was, g.lines, n)
    requires Parsing(g.base, now, g.seg, NulFrom(was, g.seg, hi), n, NulFrom(was, g.seg, hi) + 1, rows[|g.lines|..])
    requires !Continues(was, g.seg, NulFrom(was, g.seg, hi))
    ensures Finished(was, now, from, hi, n, rows)
  {
    hide Parsing, Edited, RowsOf, Lines;
    StretchDone(was, now, from, hi, n, rows, g);
    assert AllLines(was, g.seg, hi) == Lines(was, g.seg, NulFrom(was, g.seg, hi));
  }

  /** It was not: the loop goes on behind the NUL. */
  lemma {:induction false} NextStretch(was: seq<Byte>, now: seq<Byte>, from: nat, hi: nat, n: nat, rows: seq<seq<nat>>,
                                       g: Stretch)
    returns (g': Stretch)
    requires hi < |was| && was[hi] == NUL && Reached(was, from, hi, n, g) && HasText(was, g.seg, hi)
    requires |g.lines| <= |rows| && rows[..|g.lines|] == RowsOf(was, g.lines, n)
    requires Parsing(g.base, now, g.seg, NulFrom(was, g.seg, hi), n, NulFrom(was, g.seg, hi) + 1, rows[|g.lines|..])
    requires Continues(was, g.seg, NulFrom(was, g.seg, hi))
    ensures Going(was, now, from, hi, n, NulFrom(was, g.seg, hi) + 1, rows, g')
  {
    hide Parsing, Edited, RowsOf, Lines, Rows, Reached;
    StretchDone(was, now, from, hi, n, rows, g);
    var z := NulFrom(was, g.seg, hi);
    g' := Stretch(now, z + 1, g.lines + Lines(was, g.seg, z));
    ReachedNext(was, now, from, hi, n, g);
    assert rows[..|g'.lines|] == rows;
    if HasText(was, z + 1, hi) {
      ParsingStarts(now, z + 1, NulFrom(was, z + 1, hi), n);
      assert rows[|g'.lines|..] == [];
    }
  }

  lemma {:induction false} ReachedNext(was: seq<Byte>, now: seq<Byte>, from: nat, hi: nat, n: nat, g: Stretch)
    requires hi < |was| == |now| && was[hi] == NUL && Reached(was, from, hi, n, g) && HasText(was, g.seg, hi)
    requires Continues(was, g.seg, NulFrom(was, g.seg, hi))
    requires forall k :: 0 <= k <= NulFrom(was, g.seg, hi) ==> now[k] == AllEdited(was, from, hi, n, k)
    requires forall k :: NulFrom(was, g.seg, hi) < k < |was| ==> now[k] == was[k]
    requires Inside(was, g.lines + Lines(was, g.seg, NulFrom(was, g.seg, hi)))
    ensures var z := NulFrom(was, g.seg, hi);
            Reached(was, from, hi, n, Stretch(now, z + 1, g.lines + Lines(was, g.seg, z)))
  {
    hide AllEdited, AllLines, Lines, Inside, Continues;
    var z := NulFrom(was, g.seg, hi);
    forall k | z < k < |was| ensures AllEdited(was, from, hi, n, k) == AllEdited(was, z + 1, hi, n, k) {
      BehindNul(was, g.seg, hi, n, k);
    }
    BehindNul(was, g.seg, hi, n, z + 1);
    Assoc(g.lines, Lines(was, g.seg, z), AllLines(was, z + 1, hi));
  }

  lemma {:induction false} BehindNul(s: seq<Byte>, seg: nat, hi: nat, n: nat, k: nat)
    requires hi < |s| && s[hi] == NUL && HasText(s, seg, hi) && Continues(s, seg, NulFrom(s, seg, hi))
    requires NulFrom(s, seg, hi) < k
    ensures var z := NulFrom(s, seg, hi);
            && (k < |s| ==> AllEdited(s, seg, hi, n, k) == AllEdited(s, z + 1, hi, n, k))
            && AllLines(s, seg, hi) == Lines(s, seg, z) + AllLines(s, z + 1, hi)
  {
    hide Edited, Lines;
  }

  lemma {:induction false} GoingStarts(was: seq<Byte>, from: nat, hi: nat, n: nat) returns (g: Stretch)
    requires from <= hi < |was| && was[hi] == NUL
    ensures Going(was, was, from, hi, n, from, [], g)
  {
    hide Parsing, Rows, Lines;
    g := Stretch(was, from, []);
    forall k | 0 <= k < |was| && k < from ensures was[k] == AllEdited(was, from, hi, n, k) {
    }
    assert AllLines(was, from, hi) == [] + AllLines(was, from, hi);
    if HasText(was, from, hi) {
      ParsingStarts(was, from, NulFrom(was, from, hi), n);
    }
  }

  /** The loop's test fails: nothing is left. */
  lemma {:induction false} GoingEnds(was: seq<Byte>, now: seq<Byte>, from: nat, hi: nat, n: nat, line: nat,
                                     rows: seq<seq<nat>>, g: Stretch)
    requires hi < |was| == |now| && was[hi] == NUL && Going(was, now, from, hi, n, line, rows, g)
    requires line <= hi ==> now[line] == NUL
    ensures Finished(was, now, from, hi, n, rows)
  {
    hide Rows, Lines, EditedUpTo, Edited;
    if HasText(was, g.seg, hi) {
      var z := NulFrom(was, g.seg, hi);
      NotYetEdited(g.base, now, g.seg, n, line);
      assert line == z;
      RowsStep(g.base, g.seg, z, z, n);
      TailUnedited(g.base, now, g.seg, n, z, z);
      LastStretch(was, now, from, hi, n, rows, g);
    } else {
      assert g.lines + [] == g.lines && rows[..|g.lines|] == rows;
    }
  }

  /** In the loop's body the loop is before the stretch's NUL. */
  lemma {:induction false} InStretch(was: seq<Byte>, now: seq<Byte>, from: nat, hi: nat, n: nat, line: nat,
                                     rows: seq<seq<nat>>, g: Stretch)
    requires hi < |was| == |now| && was[hi] == NUL && Going(was, now, from, hi, n, line, rows, g)
    requires line <= hi && now[line] != NUL
    ensures HasText(was, g.seg, hi) && line < NulFrom(was, g.seg, hi) && g.base[NulFrom(was, g.seg, hi)] == NUL
    ensures |g.base| == |was| && EditedUpTo(g.base, now, g.seg, n, line) &&
            Boundary(g.base, g.seg, line, NulFrom(was, g.seg, hi))
    ensures forall k :: g.seg <= k < NulFrom(was, g.seg, hi) ==> g.base[k] != NUL
  {
    hide Rows, Lines, Edited;
    if HasText(was, g.seg, hi) {
      NotYetEdited(g.base, now, g.seg, n, line);
    }
  }

  /** A line was found in the stretch. */
  lemma {:induction false} RowStep(was: seq<Byte>, before: seq<Byte>, now: seq<Byte>, from: nat, hi: nat, n: nat,
                                   line: nat, rows: seq<seq<nat>>, g: Stretch)
    requires hi < |was| == |before| && was[hi] == NUL && Going(was, before, from, hi, n, line, rows, g)
    requires HasText(was, g.seg, hi) && line < NulFrom(was, g.seg, hi)
    requires var z := NulFrom(was, g.seg, hi);
             var a := SkipEol(g.base, line, z);
             a < z && EditedUpTo(g.base, now, g.seg, n, LineEnd(g.base, a, z) + 1)
    ensures var z := NulFrom(was, g.seg, hi);
            var a := SkipEol(g.base, line, z);
            var b := LineEnd(g.base, a, z);
            var rows' := rows + [Starts(Columns(g.base, Line(a, b), n))];
            if b == z then Finished(was, now, from, hi, n, rows') else Going(was, now, from, hi, n, b + 1, rows', g)
  {
    hide Lines, EditedUpTo, Edited, Rows, Starts, Columns, SkipEol, LineEnd, RowsOf, AllLines, AllEdited, Parsing;
    var z := NulFrom(was, g.seg, hi);
    var a := SkipEol(g.base, line, z);
    var b := LineEnd(g.base, a, z);
    var rows' := rows + [Starts(Columns(g.base, Line(a, b), n))];
    LineStep(g.base, before, now, g.seg, z, n, line, rows[|g.lines|..]);
    assert rows'[..|g.lines|] == rows[..|g.lines|];
    assert rows'[|g.lines|..] == rows[|g.lines|..] + [Starts(Columns(g.base, Line(a, b), n))];
    if b == z {
      LastStretch(was, now, from, hi, n, rows', g);
    }
  }

  lemma {:induction false} LineStep(base: seq<Byte>, before: seq<Byte>, now: seq<Byte>, seg: nat, z: nat, n: nat,
                                    line: nat, rows: seq<seq<nat>>)
    requires seg <= z < |base| && line < z && Parsing(base, before, seg, z, n, line, rows) && SkipEol(base, line, z) < z
    requires EditedUpTo(base, now, seg, n, LineEnd(base, SkipEol(base, line, z), z) + 1)
    ensures var a := SkipEol(base, line, z);
            var b := LineEnd(base, a, z);
            && Parsing(base, now, seg, z, n, b + 1, rows + [Starts(Columns(base, Line(a, b), n))])
            && !IsEol(base[b - 1]) && seg < b && (b < z ==> IsEol(base[b]))
  {
    hide EditedUpTo, Rows, Starts, Columns, SkipEol, LineEnd;
    var a := SkipEol(base, line, z);
    var b := LineEnd(base, a, z);
    RowsStep(base, seg, line, z, n);
    Assoc(rows, [Starts(Columns(base, Line(a, b), n))], RowsFrom(base, b + 1, z, n));
  }

  /** Nothing but CR and LF was left in the stretch. */
  lemma {:induction false} SkipStep(was: seq<Byte>, before: seq<Byte>, now: seq<Byte>, from: nat, hi: nat, n: nat,
                                    line: nat, rows: seq<seq<nat>>, g: Stretch)
    returns (g': Stretch)
    requires hi < |was| == |before| && was[hi] == NUL && Going(was, before, from, hi, n, line, rows, g)
    requires HasText(was, g.seg, hi) && line < NulFrom(was, g.seg, hi)
    requires SkipEol(g.base, line, NulFrom(was, g.seg, hi)) == NulFrom(was, g.seg, hi)
    requires EditedUpTo(g.base, now, g.seg, n, NulFrom(was, g.seg, hi) + 1)
    ensures Going(was, now, from, hi, n, NulFrom(was, g.seg, hi) + 1, rows, g')
  {
    hide Lines, EditedUpTo, Edited, Rows;
    var z := NulFrom(was, g.seg, hi);
    RowsStep(g.base, g.seg, line, z, n);
    assert IsEol(g.base[z - 1]) && (z - 1 == line || IsEol(g.base[z - 2]));
    g' := NextStretch(was, now, from, hi, n, rows, g);
  }

  /** A line was found, but no room for its row. */
  lemma {:induction false} NoRoom(was: seq<Byte>, before: seq<Byte>, now: seq<Byte>, from: nat, hi: nat, n: nat,
                                  line: nat, rows: seq<seq<nat>>, g: Stretch)
    requires hi < |was| == |before| && was[hi] == NUL && Going(was, before, from, hi, n, line, rows, g)
    requires HasText(was, g.seg, hi) && line < NulFrom(was, g.seg, hi)
    requires SkipEol(g.base, line, NulFrom(was, g.seg, hi)) < NulFrom(was, g.seg, hi) && OnlyDelimiters(g.base, now)
    ensures |rows| < |AllLines(was, from, hi)| && OnlyDelimiters(was, now)
  {
    hide Lines, EditedUpTo, Edited, Rows, AllEdited;
    var z := NulFrom(was, g.seg, hi);
    RowsStep(g.base, g.seg, line, z, n);
    RowsAgree(was, g.base, g.seg, z, n);
  }

  /** A turn of the parser's loop. */
  method Turn(data: array<Byte>, line: nat, dataEnd: nat, n: nat, allocOk: bool, rows: seq<seq<nat>>,
              ghost was: seq<Byte>, ghost from: nat, ghost g: Stretch)
    returns (p: Parsed, next: nat, rows': seq<seq<nat>>, ghost g': Stretch)
    requires line <= dataEnd < |was| == data.Length < U32 && was[dataEnd] == NUL && data[line] != NUL
    requires Going(was, data[..], from, dataEnd, n, line, rows, g)
    modifies data
    ensures !p.NoMemory? ==> line < next && |rows'| == if p.Row? then |rows| + 1 else |rows|
    ensures p.NoMemory? ==> !allocOk && |rows| < |AllLines(was, from, dataEnd)|
    ensures p.Row? ==> allocOk
    ensures p.Row? && p.last ==> Finished(was, data[..], from, dataEnd, n, rows')
    ensures p.NoLine? || (p.Row? && !p.last) ==> Going(was, data[..], from, dataEnd, n, next, rows', g')
    ensures p.NoMemory? ==> OnlyDelimiters(was, data[..])
  {
    hide Going, Finished, EditedUpTo, OnlyDelimiters, SkipEol, LineEnd, Columns, Starts, AllLines;
    ghost var before := data[..];
    InStretch(was, before, from, dataEnd, n, line, rows, g);
    ghost var z := NulFrom(was, g.seg, dataEnd);
    rows', g' := rows, g;
    p, next := ParseOne(data, line, dataEnd, n, allocOk, z, g.base, g.seg);
    if p.NoMemory? {
      NoRoom(was, before, data[..], from, dataEnd, n, line, rows, g);
    } else if p.NoLine? {
      g' := SkipStep(was, before, data[..], from, dataEnd, n, line, rows, g);
    } else {
      RowStep(was, before, data[..], from, dataEnd, n, line, rows, g);
      rows' := rows + [p.columns];
    }
  }

  /** The parser's loop, from `from` on. */
  method ParseLines(data: array<Byte>, from: nat, dataEnd: nat, n: nat, allocFails: nat)
    returns (status: Status, rows: seq<seq<nat>>)
    requires from <= dataEnd < data.Length < U32 && data[dataEnd] == NUL
    modifies data
    ensures status == if |AllLines(old(data[..]), from, dataEnd)| <= allocFails then Success else OutOfResources
    ensures if status.Success? then Finished(old(data[..]), data[..], from, dataEnd, n, rows)
            else rows == [] && OnlyDelimiters(old(data[..]), data[..])
  {
    hide Going, Finished, OnlyDelimiters, AllLines;
    ghost var was := data[..];
    var line := from;
    rows := [];
    ghost var g := GoingStarts(was, from, dataEnd, n);
    while line <= dataEnd && data[line] != NUL
      invariant Going(was, data[..], from, dataEnd, n, line, rows, g)
      invariant |rows| <= allocFails
      decreases dataEnd + 1 - line
    {
      var p;
      p, line, rows, g := Turn(data, line, dataEnd, n, |rows| < allocFails, rows, was, from, g);
      if p.NoMemory? {
        return OutOfResources, [];
      }
      if p.Row? && p.last {
        RowPerAllLines(was, data[..], from, dataEnd, n, rows);
        return Success, rows;
      }
    }
    GoingEnds(was, data[..], from, dataEnd, n, line, rows, g);
    RowPerAllLines(was, data[..], from, dataEnd, n, rows);
    return Success, rows;
  }

  lemma {:induction false} RowPerAllLines(was: seq<Byte>, now: seq<Byte>, from: nat, hi: nat, n: nat,
                                          rows: seq<seq<nat>>)
    requires hi < |was| && was[hi] == NUL && Finished(was, now, from, hi, n, rows)
    ensures |rows| == |AllLines(was, from, hi)|
  {
    hide AllLines, AllEdited;
  }

  /** Parses any data that ends in a NUL, in place: one row per line, each row
      the offsets of its columns.  Allocation number `allocFails` fails, if
      reached; then the list is emptied. */
  method ParseCsvData(data: array<Byte>, dataEnd: nat, n: nat, allocFails: nat)
    returns (status: Status, rows: seq<seq<nat>>)
    requires dataEnd < data.Length < U32 && data[dataEnd] == NUL
    modifies data
    ensures var all := AllLines(old(data[..]), Start(old(data[..]), dataEnd), dataEnd);
            && status == (if dataEnd == 0 || n == 0 then InvalidParameter
                          else if |all| <= allocFails then Success else OutOfResources)
            && rows == if status.Success? then RowsOf(old(data[..]), all, n) else []
    ensures OnlyDelimiters(old(data[..]), data[..])
    ensures status.InvalidParameter? ==> data[..] == old(data[..])
    ensures status.Success? ==> forall k :: 0 <= k < data.Length ==>
              data[k] == AllEdited(old(data[..]), Start(old(data[..]), dataEnd), dataEnd, n, k)
  {
    hide AllEdited, AllLines;
    ghost var was := data[..];
    assert data[0..Min(3, dataEnd + 1)] == was[..Min(3, dataEnd + 1)];
    if dataEnd == 0 || n == 0 {
      return InvalidParameter, [];
    }
    var line := 0;
    var bom := IsUtf8Bom(data, 0, dataEnd + 1);
    if bom {
      line := 3;
    }
    status, rows := ParseLines(data, line, dataEnd, n, allocFails);
  }

  /** One stretch of text and nothing but NULs behind it. */
  predicate Padded(s: seq<Byte>, end: nat)
    requires end < |s|
  {
    forall k :: NulFrom(s, 0, end) <= k <= end ==> s[k] == NUL
  }

  /** Then the lines are those before the first NUL, and so are the edits. */
  lemma {:induction false} PaddedIsPlain(was: seq<Byte>, now: seq<Byte>, from: nat, hi: nat, n: nat)
    requires hi < |was| == |now| && was[hi] == NUL && Padded(was, hi) && from <= NulFrom(was, 0, hi)
    requires forall k :: 0 <= k < |was| ==> now[k] == AllEdited(was, from, hi, n, k)
    ensures AllLines(was, from, hi) == Lines(was, from, NulFrom(was, 0, hi))
    ensures EditedUpTo(was, now, from, n, NulFrom(was, 0, hi) + 1)
  {
    hide Edited, Lines;
    var z := NulFrom(was, 0, hi);
    if from < z {
      assert NulFrom(was, from, hi) == z;
      assert forall k :: 0 <= k < |was| ==> AllEdited(was, z + 1, hi, n, k) == was[k];
    } else {
      assert was[from] == NUL;
      NothingThere(was, from, n);
    }
  }

  lemma {:induction false} NothingThere(s: seq<Byte>, from: nat, n: nat)
    requires from < |s| && s[from] == NUL
    ensures Lines(s, from, from) == [] && EditedUpTo(s, s, from, n, from + 1)
  {
  }

  /** What a caller finds after a successful parse: row `r` holds the starts of
      the fields of the `r`-th line (`RowsOf`), and each of its columns is a
      string, without NUL, equal to that field. */
  lemma {:induction false} RowsReadBack(was: seq<Byte>, now: seq<Byte>, i: nat, hi: nat, n: nat, r: nat, c: nat)
    requires hi < |was| == |now| && was[hi] == NUL
    requires forall k :: i <= k < |was| ==> now[k] == AllEdited(was, i, hi, n, k)
    requires r < |AllLines(was, i, hi)| && c < |Columns(was, AllLines(was, i, hi)[r], n)|
    ensures var f := Columns(was, AllLines(was, i, hi)[r], n)[c];
            StringAt(was, now, f) && forall k :: f.start <= k < f.end ==> was[k] != NUL
    decreases hi + 1 - i
  {
    hide Columns, Lines, Edited, StringAt;
    var z := NulFrom(was, i, hi);
    var ls := Lines(was, i, z);
    if r < |ls| {
      assert AllLines(was, i, hi)[r] == ls[r];
      assert forall k :: i <= k <= z ==> now[k] == Edited(was, i, n, k);
      LineReadsBack(was, now, i, z, n, r, c);
    } else {
      assert AllLines(was, i, hi)[r] == AllLines(was, z + 1, hi)[r - |ls|];
      assert forall k :: z < k < |was| ==> now[k] == AllEdited(was, z + 1, hi, n, k);
      RowsReadBack(was, now, z + 1, hi, n, r - |ls|, c);
    }
  }

  lemma {:induction false} LineReadsBack(was: seq<Byte>, now: seq<Byte>, from: nat, z: nat, n: nat, r: nat, c: nat)
    requires from <= z < |was| == |now| && was[z] == NUL && forall k :: from <= k < z ==> was[k] != NUL
    requires forall k :: from <= k <= z ==> now[k] == Edited(was, from, n, k)
    requires r < |Lines(was, from, z)| && c < |Columns(was, Lines(was, from, z)[r], n)|
    ensures var f := Columns(was, Lines(was, from, z)[r], n)[c];
            StringAt(was, now, f) && forall k :: f.start <= k < f.end ==> was[k] != NUL
  {
    hide Columns, Lines, StringAt, Edited;
    LinesAreRuns(was, from, z);
    var l := Lines(was, from, z)[r];
    assert l in Lines(was, from, z);
    assert IsRun(was, from, z, l);
    RunReadsBack(was, now, from, z, n, l, c);
    ColumnInside(was, l, n, c);
  }

  lemma {:induction false} ColumnInside(s: seq<Byte>, l: Line, n: nat, c: nat)
    requires l.start <= l.end <= |s| && c < |Columns(s, l, n)|
    ensures l.start <= Columns(s, l, n)[c].start <= Columns(s, l, n)[c].end <= l.end
  {
    FieldBounds(s, l.start, l.start, l.end, c);
  }

  lemma {:induction false} RunReadsBack(was: seq<Byte>, now: seq<Byte>, from: nat, hi: nat, n: nat, l: Line, c: nat)
    requires from <= hi < |was| == |now| && was[hi] == NUL
    requires forall k :: from <= k <= hi ==> now[k] == Edited(was, from, n, k)
    requires IsRun(was, from, hi, l) && c < |Columns(was, l, n)|
    ensures StringAt(was, now, Columns(was, l, n)[c])
  {
    LineEdits(was, from, l.start, hi, n);
    assert SkipEol(was, l.start, hi) == l.start && LineEnd(was, l.start, hi) == l.end;
    ColumnsReadBack(was, now, l, n, c);
  }

  /** Text, two line feeds and a NUL: the line behind the NUL is found too. */
  lemma {:induction false} RowBehindNul(s: seq<Byte>)
    requires s == [97, LF, LF, NUL, 98, NUL]
    ensures AllLines(s, 0, 5) == [Line(0, 1), Line(4, 5)]
  {
    assert NulFrom(s, 0, 5) == 3 && NulFrom(s, 4, 5) == 5;
    assert Lines(s, 4, 5) == [Line(4, 5)];
    assert SkipEol(s, 0, 3) == 0 && LineEnd(s, 0, 3) == 1 && SkipEol(s, 1, 3) == 3;
    assert Lines(s, 0, 3) == [Line(0, 1)];
    assert AllLines(s, 4, 5) == [Line(4, 5)];
  }

  // ----- the documented promise

  /** Where the run around `k` starts. */
  function RunStart(s: seq<Byte>, from: nat, k: nat): (a: nat)
    requires from <= k < |s| && !IsEol(s[k])
    ensures from <= a <= k && (forall j :: a <= j <= k ==> !IsEol(s[j])) && (a == from || IsEol(s[a - 1]))
    decreases k
  {
    if k == from || IsEol(s[k - 1]) then k else RunStart(s, from, k - 1)
  }

  lemma {:induction false} CommasBounded(s: seq<Byte>, lo: nat, hi: nat, n: nat)
    requires lo <= hi <= |s| && forall k :: lo <= k < hi && s[k] == COMMA ==> Count(s, lo, k) < n
    ensures Count(s, lo, hi) <= n
    decreases hi
  {
    if lo < hi {
      CommasBounded(s, lo, hi - 1, n);
    }
  }

  /** No line has more than `n` commas. */
  ghost predicate FewCommas(s: seq<Byte>, from: nat, hi: nat, n: nat)
    requires from <= hi <= |s|
  {
    forall l :: l in Lines(s, from, hi) ==> l.start <= l.end <= |s| && Count(s, l.start, l.end) <= n
  }

  lemma {:induction false} FewCommasIff(s: seq<Byte>, from: nat, hi: nat, n: nat)
    requires from <= hi <= |s|
    ensures FewCommas(s, from, hi, n) <==> forall k :: from <= k < hi && s[k] == COMMA ==> Seen(s, from, k) < n
  {
    hide Lines, Seen, Count;
    LinesAreRuns(s, from, hi);
    if FewCommas(s, from, hi, n) {
      forall k | from <= k < hi && s[k] == COMMA ensures Seen(s, from, k) < n {
        var l := Line(RunStart(s, from, k), LineEnd(s, k, hi));
        assert IsRun(s, from, hi, l);
        assert l in Lines(s, from, hi);
        SeenOnLine(s, from, l.start, k);
        CountGrows(s, l.start, k, l.end);
      }
    }
    if forall k :: from <= k < hi && s[k] == COMMA ==> Seen(s, from, k) < n {
      forall l | l in Lines(s, from, hi) ensures l.start <= l.end <= |s| && Count(s, l.start, l.end) <= n {
        assert IsRun(s, from, hi, l);
        forall k | l.start <= k < l.end && s[k] == COMMA ensures Count(s, l.start, k) < n {
          SeenOnLine(s, from, l.start, k);
        }
        CommasBounded(s, l.start, l.end, n);
      }
    }
  }

  /** No CR or LF starts the text or follows another one. */
  predicate Spaced(s: seq<Byte>, from: nat, hi: nat)
    requires from <= hi <= |s|
  {
    forall k :: from <= k < hi && IsEol(s[k]) ==> from < k && !IsEol(s[k - 1])
  }

  /** After a parse every CR, LF and comma of the text is NUL, as include/str.h
      says, if and only if no CR or LF starts the text or follows another, and no
      line has more than `n` commas. */
  lemma {:induction false} PromiseIff(was: seq<Byte>, now: seq<Byte>, from: nat, hi: nat, n: nat)
    requires from <= hi < |was| && EditedUpTo(was, now, from, n, hi + 1)
    ensures (forall k :: from <= k < hi && (IsEol(was[k]) || was[k] == COMMA) ==> now[k] == NUL) <==>
            Spaced(was, from, hi) && FewCommas(was, from, hi, n)
  {
    hide FewCommas, Seen;
    FewCommasIff(was, from, hi, n);
    forall k | from <= k < hi ensures now[k] == Edited(was, from, n, k) {
    }
    forall k | from <= k < hi && was[k] == COMMA ensures now[k] == NUL <==> Seen(was, from, k) < n {
      assert !IsEol(was[k]);
    }
    forall k | from <= k < hi && IsEol(was[k]) ensures now[k] == NUL <==> from < k && !IsEol(was[k - 1]) {
      assert was[k] != COMMA;
    }
  }

  /** Two line feeds in a row: the second one stays. */
  lemma {:induction false} SecondLineFeedStays(now: seq<Byte>, n: nat)
    requires EditedUpTo([97, COMMA, 98, LF, LF, NUL], now, 0, n, 6)
    ensures now[3] == NUL && now[4] == LF
  {
    var was := [97, COMMA, 98, LF, LF, NUL];
    assert now[3] == Edited(was, 0, n, 3) && now[4] == Edited(was, 0, n, 4);
  }
}
