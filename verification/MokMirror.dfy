/** Splitting a signature database into variables that fit the firmware's
    variable size (`mirror_mok_db` in mok.c). */
module MokMirror {
  import opened Bytes
  import opened SignatureList
  import opened Databases

  const MIN_SIZE := 65  // a list header, a signature with one byte of data, and a SHA-1 digest

  // ----- well-formed databases

  /** `n` bytes are whole signatures of `size` bytes. */
  predicate Whole(n: nat, size: nat) { 0 < size && n == Divided(n, size) * size }

  /** From `pos` to `size` stand complete lists without headers of their own,
      each of one or more signatures. */
  predicate Chain(m: Memory, pos: nat, size: nat)
    decreases if pos < size then size - pos else 0
  {
    pos == size ||
    (&& LIST_HEADER < ListSizeAt(m, pos) && pos + ListSizeAt(m, pos) <= size <= |m.data|
     && Whole(ListSizeAt(m, pos) - LIST_HEADER, SigSizeAt(m, pos))
     && Chain(m, pos + ListSizeAt(m, pos), size))
  }

  lemma {:induction false} ChainStep(m: Memory, pos: nat, size: nat, l: SigList)
    requires WellFormed(l) && Holds(m, pos, Encode(l)) && l.header == []
    requires pos + ListSize(l) <= size <= |m.data| && Chain(m, pos + ListSize(l), size)
    ensures Chain(m, pos, size)
  {
    hide WellFormed, Holds, Encode, Concat, Whole, ListSizeAt, SigSizeAt, HeaderSizeAt, TypeAt;
    ListRead(m, pos, l);
    ListWhole(l);
  }

  lemma {:induction false} DatabaseIsChain(m: Memory, pos: nat, end: nat, ls: seq<SigList>)
    requires AllWellFormed(ls) && Holds(m, pos, EncodeAll(ls)) && end == pos + |EncodeAll(ls)| <= |m.data|
    requires forall i :: 0 <= i < |ls| ==> ls[i].header == []
    ensures Chain(m, pos, end)
    decreases |ls|
  {
    hide WellFormed, Holds, Encode, Chain;
    if ls == [] {
      ChainEnd(m, pos);
    } else {
      FirstEncoded(m, pos, ls);
      DatabaseIsChain(m, pos + ListSize(ls[0]), end, ls[1..]);
      ChainStep(m, pos, end, ls[0]);
    }
  }

  lemma ChainEnd(m: Memory, pos: nat)
    ensures Chain(m, pos, pos)
  {
  }

  lemma {:induction false} ListWhole(l: SigList)
    requires WellFormed(l)
    ensures Whole(|Concat(l.sigs)|, l.sigSize) && 0 < |Concat(l.sigs)|
  {
    ConcatSize(l.sigs, l.sigSize);
    Quotient(|Concat(l.sigs)|, l.sigSize, |l.sigs|, 0);
    MulMonotone(1, |l.sigs|, l.sigSize);
  }

  /** Taking whole signatures away leaves whole signatures. */
  lemma {:induction false} WholeRest(n: nat, k: nat, size: nat)
    requires Whole(n, size) && k <= Divided(n, size)
    ensures k * size <= n && Whole(n - k * size, size)
  {
    var q := Divided(n, size);
    MulMonotone(k, q, size);
    assert n - k * size == (q - k) * size + 0;
    Quotient(n - k * size, size, q - k, 0);
  }

  lemma QuotientBounds(a: nat, b: nat)
    requires 0 < b
    ensures Divided(a, b) * b <= a < Divided(a, b) * b + b
  {
  }

  lemma {:induction false} WholeFits(n: nat, size: nat)
    requires Whole(n, size) && 0 < n
    ensures 1 <= Divided(n, size) && size <= n
  {
    MulMonotone(1, Divided(n, size), size);
  }

  // ----- what a pass does with every byte

  datatype Kind = ListHeader | Created | SkippedFirst | NoRoom | Tail

  /** A stretch of the database, the list it belongs to, which size query it
      answers to, and the number of runs before it. */
  datatype Segment = Segment(kind: Kind, from: nat, to: nat, list: nat, query: nat, index: nat)
  {
    predicate IsRun() { kind == Created || kind == SkippedFirst }
  }

  /** The firmware, as far as one pass sees it: the size reported at each query
      or an error, the bytes of each numbered name, and whether each write succeeds. */
  datatype Firmware = Firmware(reported: nat -> Option<nat>, nameSize: nat -> nat, setOk: nat -> bool)

  /** The room for data once the name is counted. */
  function Room(fw: Firmware, query: nat, index: nat): (n: nat)
  {
    match fw.reported(query)
    case None => 0
    case Some(max) => if fw.nameSize(index) < max then max - fw.nameSize(index) else 0
  }

  /** The number of signatures that fit both the room and the rest of the list. */
  function HowMany(room: nat, left: nat, sig: nat): (n: nat)
    requires 0 < sig
  {
    if LIST_HEADER < room then Min(Divided(room - LIST_HEADER, sig), Divided(left, sig)) else 0
  }

  function EndOf(m: Memory, list: nat): (end: nat) { list + ListSizeAt(m, list) }

  /** The bytes from `pos` to the end of the list, in 64 bits: very many when the
      list is smaller than its header. */
  function Left(m: Memory, list: nat, pos: nat): (n: nat) { (EndOf(m, list) - pos) % U64 }

  /** The walk stops at a list without size or without signature size. */
  predicate Usable(m: Memory, list: nat) { 0 < ListSizeAt(m, list) && 0 < SigSizeAt(m, list) }

  /** A run is as many whole signatures as fit the room and the list.  A list, or
      what is left of it, is passed over only where that number is zero. */
  predicate Fair(m: Memory, fw: Firmware, s: Segment)
  {
    match s.kind
    case Tail => s.from < s.to
    case ListHeader => Usable(m, s.list) && s.from == s.list && s.to == s.from + LIST_HEADER
    case NoRoom =>
      && Usable(m, s.list) && s.from < s.to == EndOf(m, s.list) && (s.from == s.list || s.list + LIST_HEADER <= s.from)
      && HowMany(Room(fw, s.query, s.index), Left(m, s.list, if s.from == s.list then s.from + LIST_HEADER else s.from),
                 SigSizeAt(m, s.list)) == 0
    case _ =>
      && Usable(m, s.list) && s.list + LIST_HEADER <= s.from < s.to
      && (s.kind == Created ==> LIST_HEADER + (s.to - s.from) < U32)
      && s.to == s.from +
           HowMany(Room(fw, s.query, s.index), Left(m, s.list, s.from), SigSizeAt(m, s.list)) * SigSizeAt(m, s.list)
  }

  predicate AllFair(m: Memory, fw: Firmware, segs: seq<Segment>)
  {
    forall i :: 0 <= i < |segs| ==> Fair(m, fw, segs[i])
  }

  /** The segments follow each other from 0 to `end`. */
  predicate Tiles(segs: seq<Segment>, end: nat)
  {
    if segs == [] then end == 0
    else var last := segs[|segs| - 1]; last.to == end && last.from <= end && Tiles(segs[..|segs| - 1], last.from)
  }

  function Runs(segs: seq<Segment>): (n: nat)
  {
    if segs == [] then 0 else Runs(segs[..|segs| - 1]) + if segs[|segs| - 1].IsRun() then 1 else 0
  }

  /** Runs are numbered in order, and the first one is skipped in a second pass only. */
  predicate Numbered(segs: seq<Segment>, onlyFirst: bool)
  {
    segs != [] ==>
      var last, before := segs[|segs| - 1], segs[..|segs| - 1];
      && last.index == Runs(before) && Numbered(before, onlyFirst)
      && (last.IsRun() ==> (last.kind == SkippedFirst <==> !onlyFirst && last.index == 0))
  }

  /** The list the walk is in after these segments, unless it is used up. */
  function Within(m: Memory, segs: seq<Segment>): (list: Option<nat>)
  {
    if segs == [] then None
    else
      var last := segs[|segs| - 1];
      if last.kind == ListHeader || (last.IsRun() && last.to < EndOf(m, last.list)) then Some(last.list) else None
  }

  /** Runs and rests stay in the list that was entered; a new one starts only behind it. */
  predicate Linked(m: Memory, segs: seq<Segment>)
  {
    segs != [] ==>
      var last, before := segs[|segs| - 1], segs[..|segs| - 1];
      && Linked(m, before)
      && (last.IsRun() || (last.kind == NoRoom && last.from != last.list) ==> Within(m, before) == Some(last.list))
      && (last.kind == ListHeader || (last.kind == NoRoom && last.from == last.list) ==> Within(m, before) == None)
  }

  /** A variable: its number, and its contents. */
  datatype Variable = Variable(index: nat, data: seq<Byte>)

  function Contents(m: Memory, s: Segment): (b: seq<Byte>)
  {
    if s.from <= s.to && LIST_HEADER + (s.to - s.from) < U32
    then Header(TypeAt(m, s.list), LIST_HEADER + (s.to - s.from), 0, SigSizeAt(m, s.list)) +
      m.Slice(s.from, s.to - s.from)
    else []
  }

  /** One variable for each created run, in order. */
  function Variables(m: Memory, segs: seq<Segment>): (v: seq<Variable>)
  {
    if segs == [] then []
    else
      var last := segs[|segs| - 1];
      Variables(m, segs[..|segs| - 1]) + if last.kind == Created then [Variable(last.index, Contents(m, last))] else []
  }

  /** What a pass has done up to `pos`. */
  predicate Done(m: Memory, fw: Firmware, segs: seq<Segment>, onlyFirst: bool, pos: nat, vars: seq<Variable>)
  {
    && AllFair(m, fw, segs) && Tiles(segs, pos) && Numbered(segs, onlyFirst) && Linked(m, segs)
    && vars == Variables(m, segs)
  }

  lemma {:induction false} DoneStep(m: Memory, fw: Firmware, segs: seq<Segment>, onlyFirst: bool, vars: seq<Variable>,
                                    s: Segment)
    requires Done(m, fw, segs, onlyFirst, s.from, vars) && s.from <= s.to && Fair(m, fw, s) && s.index == Runs(segs)
    requires s.IsRun() ==> (s.kind == SkippedFirst <==> !onlyFirst && s.index == 0)
    requires s.IsRun() || (s.kind == NoRoom && s.from != s.list) ==> Within(m, segs) == Some(s.list)
    requires s.kind == ListHeader || (s.kind == NoRoom && s.from == s.list) ==> Within(m, segs) == None
    ensures Runs(segs + [s]) == Runs(segs) + if s.IsRun() then 1 else 0
    ensures Done(m, fw, segs + [s], onlyFirst, s.to,
              if s.kind == Created then vars + [Variable(s.index, Contents(m, s))] else vars)
    ensures Within(m, segs + [s]) ==
              if s.kind == ListHeader || (s.IsRun() && s.to < EndOf(m, s.list)) then Some(s.list) else None
    ensures FirstOf(segs + [s]) == if FirstOf(segs).None? && s.IsRun() then Some(s) else FirstOf(segs)
  {
    hide Fair, Contents, EndOf, Tiles, Runs, Numbered, Linked, Variables, FirstOf;
    var all := segs + [s];
    assert all[..|segs|] == segs && all[|segs|] == s;
    Unfold(m, all, s.to, onlyFirst);
  }

  lemma Unfold(m: Memory, segs: seq<Segment>, end: nat, onlyFirst: bool)
    requires segs != []
    ensures var last, before := segs[|segs| - 1], segs[..|segs| - 1];
            && (Tiles(segs, end) <==> last.to == end && last.from <= end && Tiles(before, last.from))
            && Runs(segs) == Runs(before) + (if last.IsRun() then 1 else 0)
            && (Numbered(segs, onlyFirst) <==>
                  && last.index == Runs(before) && Numbered(before, onlyFirst)
                  && (last.IsRun() ==> (last.kind == SkippedFirst <==> !onlyFirst && last.index == 0)))
            && (Linked(m, segs) <==>
                  && Linked(m, before)
                  && (last.IsRun() || (last.kind == NoRoom && last.from != last.list) ==>
                       Within(m, before) == Some(last.list))
                  && (last.kind == ListHeader || (last.kind == NoRoom && last.from == last.list) ==>
                       Within(m, before) == None))
            && Variables(m, segs) == Variables(m, before) +
                 (if last.kind == Created then [Variable(last.index, Contents(m, last))] else [])
            && FirstOf(segs) == (if FirstOf(before).None? && last.IsRun() then Some(last) else FirstOf(before))
  {
  }

  // ----- the first run

  /** The first run of a pass. */
  function FirstOf(segs: seq<Segment>): (s: Option<Segment>)
  {
    if segs == [] then None
    else
      var before := FirstOf(segs[..|segs| - 1]);
      if before.None? && segs[|segs| - 1].IsRun() then Some(segs[|segs| - 1]) else before
  }

  datatype Place = Place(list: nat, query: nat)

  /** The loop would go on at a list that stands at `pos`. */
  predicate GoesOn(m: Memory, size: nat, pos: nat) { pos + MIN_SIZE <= size && Usable(m, pos) }

  /** How many signatures of the whole list fit, at this query and for the first name. */
  function FitsAt(m: Memory, fw: Firmware, p: Place): (n: nat)
    requires Usable(m, p.list)
  {
    HowMany(Room(fw, p.query, 0), Left(m, p.list, p.list + LIST_HEADER), SigSizeAt(m, p.list))
  }

  /** The first list, from the one at `pos` on, of which a signature fits. */
  function FirstPlace(m: Memory, size: nat, fw: Firmware, pos: nat, query: nat): (p: Option<Place>)
    ensures p.Some? ==> GoesOn(m, size, p.value.list) && FitsAt(m, fw, p.value) != 0
    decreases if pos < size then size - pos else 0
  {
    if !GoesOn(m, size, pos) then None
    else if FitsAt(m, fw, Place(pos, query)) != 0 then Some(Place(pos, query))
    else FirstPlace(m, size, fw, EndOf(m, pos), query + 1)
  }

  /** `s` is the run a pass takes first at `p`. */
  predicate RunAt(m: Memory, fw: Firmware, s: Segment, p: Place)
  {
    && Usable(m, p.list) && s.IsRun() && s.list == p.list && s.query == p.query && s.index == 0
    && s.from == p.list + LIST_HEADER
    && s.to == s.from + FitsAt(m, fw, p) * SigSizeAt(m, p.list)
  }

  // ----- one pass

  /** `fill_esl`: a new list of `howmany` signatures. */
  method FillEsl(m: Memory, from: nat, howmany: nat, kind: Guid, sigSize: nat) returns (r: Option<seq<Byte>>)
    requires sigSize < U32
    ensures r.Some? <==> 0 < howmany && 0 < sigSize && LIST_HEADER + howmany * sigSize < U32
    ensures r.Some? ==>
              r.value == Header(kind, LIST_HEADER + howmany * sigSize, 0, sigSize) + m.Slice(from, howmany * sigSize)
  {
    hide Memory.Slice, Header;
    if howmany == 0 || sigSize == 0 {
      return None;
    }
    QuotientAtMost(U32 - 1 - LIST_HEADER, sigSize, howmany);
    if Divided(U32 - 1 - LIST_HEADER, sigSize) < howmany {
      return None;
    }
    var needed := LIST_HEADER + howmany * sigSize;
    return Some(Header(kind, needed, 0, sigSize) + m.Slice(from, howmany * sigSize));
  }

  lemma {:induction false} QuotientAtMost(a: nat, b: nat, k: nat)
    requires 0 < b
    ensures k <= Divided(a, b) <==> k * b <= a
  {
    var q := Divided(a, b);
    QuotientBounds(a, b);
    if k <= q {
      MulMonotone(k, q, b);
    } else {
      MulMonotone(q + 1, k, b);
    }
  }

  lemma {:induction false} HowManyFit(room: nat, left: nat, sig: nat)
    requires Whole(left, sig) && 0 < left
    ensures var n := HowMany(room, left, sig); var adj := n * sig;
            if n == 0 then room < LIST_HEADER + sig
            else
              && 0 < adj <= left && Whole(adj, sig) && Whole(left - adj, sig)
              && LIST_HEADER + adj <= room && (adj == left || room < LIST_HEADER + adj + sig)
  {
    hide Divided;
    var n := HowMany(room, left, sig);
    WholeFits(left, sig);
    if LIST_HEADER < room {
      QuotientBounds(room - LIST_HEADER, sig);
    }
    if n != 0 {
      WholeRest(left, n, sig);
      Quotients(n, sig);
      QuotientAtMost(room - LIST_HEADER, sig, n);
    }
  }

  lemma {:induction false} Quotients(n: nat, sig: nat)
    requires 0 < sig && 0 < n
    ensures 0 < n * sig && Whole(n * sig, sig)
  {
    MulMonotone(1, n, sig);
    Quotient(n * sig, sig, n, 0);
  }

  /** What is left when a successful pass stops. */
  predicate TailFair(m: Memory, segs: seq<Segment>, onlyFirst: bool, size: nat)
  {
    forall i :: 0 <= i < |segs| && segs[i].kind == Tail ==>
      && segs[i].to == size
      && (size < segs[i].from + MIN_SIZE || (onlyFirst && segs[i].index == 1) || !Usable(m, segs[i].from))
  }

  /** Every segment starts inside the data. */
  predicate InData(segs: seq<Segment>, size: nat)
  {
    forall i :: 0 <= i < |segs| ==> segs[i].from < size
  }

  predicate NoTail(segs: seq<Segment>)
  {
    forall i :: 0 <= i < |segs| ==> segs[i].kind != Tail
  }

  predicate TailLast(segs: seq<Segment>) { segs != [] ==> NoTail(segs[..|segs| - 1]) }

  lemma {:induction false} Finish(m: Memory, fw: Firmware, segs: seq<Segment>, onlyFirst: bool, vars: seq<Variable>,
                                  pos: nat, size: nat)
    requires Done(m, fw, segs, onlyFirst, pos, vars) && NoTail(segs) && InData(segs, size) && pos < size
    requires size < pos + MIN_SIZE || (onlyFirst && Runs(segs) == 1) || !Usable(m, pos)
    ensures var all := segs + [Segment(Tail, pos, size, 0, 0, Runs(segs))];
            Done(m, fw, all, onlyFirst, size, vars) && InData(all, size) && TailLast(all) && Runs(all) == Runs(segs) &&
            TailFair(m, all, onlyFirst, size) && FirstOf(all) == FirstOf(segs)
  {
    hide Done, Runs, FirstOf;
    DoneStep(m, fw, segs, onlyFirst, vars, Segment(Tail, pos, size, 0, 0, Runs(segs)));
  }

  /** The walk: its position, the list it is in, the number of runs so far, and the variables written. */
  datatype Walk = Walk(pos: nat, inside: bool, esl: nat, i: nat, vars: seq<Variable>)
  {
    /** A new list is about to be entered. */
    predicate AtHeader(m: Memory) { !inside || EndOf(m, esl) <= pos }
  }

  ghost predicate Underway(m: Memory, size: nat, onlyFirst: bool, fw: Firmware, w: Walk, query: nat, segs: seq<Segment>)
  {
    && NoTail(segs) && InData(segs, size) && Done(m, fw, segs, onlyFirst, w.pos, w.vars) && w.i == Runs(segs)
    && Within(m, segs) == (if w.AtHeader(m) then None else Some(w.esl))
    && (w.inside ==> Usable(m, w.esl) && (w.AtHeader(m) || w.esl + LIST_HEADER <= w.pos))
    && (if w.i == 0 then
          w.AtHeader(m) && FirstOf(segs) == None &&
          FirstPlace(m, size, fw, 0, 1) == FirstPlace(m, size, fw, w.pos, query)
        else FirstOf(segs).Some? && FirstPlace(m, size, fw, 0, 1).Some? &&
             RunAt(m, fw, FirstOf(segs).value, FirstPlace(m, size, fw, 0, 1).value))
  }

  /** The list that a turn works on, and where its next signature stands. */
  function ListOf(m: Memory, w: Walk): (list: nat) { if w.AtHeader(m) then w.pos else w.esl }

  function At(m: Memory, w: Walk): (pos: nat) { if w.AtHeader(m) then w.pos + LIST_HEADER else w.pos }

  /** How many signatures the turn takes. */
  function Fits(m: Memory, fw: Firmware, w: Walk, query: nat): (n: nat)
    requires Usable(m, ListOf(m, w))
  {
    HowMany(Room(fw, query, w.i), Left(m, ListOf(m, w), At(m, w)), SigSizeAt(m, ListOf(m, w)))
  }

  function Times(n: nat, size: nat): (r: nat) { n * size }

  function RunOf(m: Memory, w: Walk, query: nat, onlyFirst: bool, n: nat): (run: Segment)
  {
    Segment(if !onlyFirst && w.i == 0 then SkippedFirst else Created,
            At(m, w), At(m, w) + Times(n, SigSizeAt(m, ListOf(m, w))), ListOf(m, w), query, w.i)
  }

  function AfterRun(m: Memory, w: Walk, run: Segment): (w': Walk)
  {
    Walk(run.to, true, run.list, w.i + 1,
         if run.kind == SkippedFirst then w.vars else w.vars + [Variable(w.i, Contents(m, run))])
  }

  function AfterList(m: Memory, w: Walk): (w': Walk)
  {
    w.(pos := EndOf(m, ListOf(m, w)), inside := true, esl := ListOf(m, w))
  }

  /** Passes over the list at `w.pos`, or over what is left of the current one. */
  lemma {:induction false} PassOver(m: Memory, size: nat, onlyFirst: bool, fw: Firmware, w: Walk, query: nat,
                                    segs: seq<Segment>)
    returns (segs': seq<Segment>)
    requires Underway(m, size, onlyFirst, fw, w, query, segs) && Usable(m, ListOf(m, w)) && Fits(m, fw, w, query) == 0
    requires w.pos < size && (w.AtHeader(m) ==> GoesOn(m, size, w.pos))
    ensures w.pos < AfterList(m, w).pos && Underway(m, size, onlyFirst, fw, AfterList(m, w), query + 1, segs')
  {
    hide Done, Runs, FirstOf, HowMany, Left, ListSizeAt, SigSizeAt, Room, Within;
    var s := Segment(NoRoom, w.pos, EndOf(m, ListOf(m, w)), ListOf(m, w), query, w.i);
    DoneStep(m, fw, segs, onlyFirst, w.vars, s);
    segs' := segs + [s];
  }

  /** Takes the run. */
  lemma {:induction false} TakeRun(m: Memory, size: nat, onlyFirst: bool, fw: Firmware, w: Walk, query: nat,
                                   segs: seq<Segment>, n: nat)
    returns (segs': seq<Segment>)
    requires Underway(m, size, onlyFirst, fw, w, query, segs) && Usable(m, ListOf(m, w)) &&
             n == Fits(m, fw, w, query) != 0
    requires w.pos < size && (w.AtHeader(m) ==> GoesOn(m, size, w.pos))
    requires var run := RunOf(m, w, query, onlyFirst, n);
             run.kind == Created ==> LIST_HEADER + (run.to - run.from) < U32
    ensures var run := RunOf(m, w, query, onlyFirst, n);
            w.pos < run.to && Underway(m, size, onlyFirst, fw, AfterRun(m, w, run), query + 1, segs')
  {
    hide Done, Runs, FirstOf, HowMany, Left, ListSizeAt, SigSizeAt, Room, Within, Contents, NoTail;
    segs' := segs;
    if w.AtHeader(m) {
      segs' := EnterList(m, fw, segs, onlyFirst, w.pos, query, w.vars, size);
    }
    segs' := AddRun(m, fw, segs', onlyFirst, w.vars, RunOf(m, w, query, onlyFirst, n), n, size);
  }

  /** Steps over the header of the list at `pos`. */
  lemma {:induction false} EnterList(m: Memory, fw: Firmware, segs: seq<Segment>, onlyFirst: bool, pos: nat, query: nat,
                                     vars: seq<Variable>, size: nat)
    returns (segs': seq<Segment>)
    requires InData(segs, size) && pos < size
    requires Done(m, fw, segs, onlyFirst, pos, vars) && NoTail(segs) && Within(m, segs) == None && Usable(m, pos)
    ensures Done(m, fw, segs', onlyFirst, pos + LIST_HEADER, vars) && NoTail(segs') && Within(m, segs') == Some(pos)
    ensures Runs(segs') == Runs(segs) && FirstOf(segs') == FirstOf(segs) && InData(segs', size)
  {
    hide Done, Runs, FirstOf, Within, Usable;
    var h := Segment(ListHeader, pos, pos + LIST_HEADER, pos, query, Runs(segs));
    DoneStep(m, fw, segs, onlyFirst, vars, h);
    segs' := segs + [h];
  }

  lemma {:induction false} AddRun(m: Memory, fw: Firmware, segs: seq<Segment>, onlyFirst: bool, vars: seq<Variable>,
                                  run: Segment, n: nat, size: nat)
    returns (segs': seq<Segment>)
    requires InData(segs, size) && run.from < size
    requires Done(m, fw, segs, onlyFirst, run.from, vars) && NoTail(segs) && Within(m, segs) == Some(run.list)
    requires Usable(m, run.list) && run.list + LIST_HEADER <= run.from && run.index == Runs(segs)
    requires n == HowMany(Room(fw, run.query, run.index), Left(m, run.list, run.from), SigSizeAt(m, run.list)) != 0
    requires run.to == run.from + n * SigSizeAt(m, run.list)
    requires run.kind == if !onlyFirst && run.index == 0 then SkippedFirst else Created
    requires run.kind == Created ==> LIST_HEADER + (run.to - run.from) < U32
    ensures run.from < run.to && NoTail(segs') && InData(segs', size) && Runs(segs') == Runs(segs) + 1
    ensures Done(m, fw, segs', onlyFirst, run.to,
                 if run.kind == Created then vars + [Variable(run.index, Contents(m, run))] else vars)
    ensures Within(m, segs') == if run.to < EndOf(m, run.list) then Some(run.list) else None
    ensures FirstOf(segs') == if FirstOf(segs).None? then Some(run) else FirstOf(segs)
  {
    hide Done, Runs, FirstOf, HowMany, Left, EndOf, SigSizeAt, Room, Within, Contents;
    Quotients(n, SigSizeAt(m, run.list));
    DoneStep(m, fw, segs, onlyFirst, vars, run);
    segs' := segs + [run];
  }

  /** The contents of the variable made from one run, unless they need 32 bits or more to count. */
  method MirrorOneEsl(m: Memory, s: Segment, howmany: nat) returns (data: Option<seq<Byte>>)
    requires 0 < howmany && 0 < SigSizeAt(m, s.list) && s.to == s.from + howmany * SigSizeAt(m, s.list)
    ensures data == if LIST_HEADER + (s.to - s.from) < U32 then Some(Contents(m, s)) else None
  {
    hide Header, TypeAt, SigSizeAt, Memory.Slice;
    data := FillEsl(m, s.from, howmany, TypeAt(m, s.list), SigSizeAt(m, s.list));
  }

  /** One turn of the loop at a usable list: a run is created or skipped, or the list is left. */
  method Take(m: Memory, size: nat, onlyFirst: bool, fw: Firmware, w: Walk, query: nat, max: nat,
              ghost segs: seq<Segment>)
    returns (ok: bool, w': Walk, ghost segs': seq<Segment>)
    requires Underway(m, size, onlyFirst, fw, w, query, segs) && Usable(m, ListOf(m, w)) &&
             fw.reported(query) == Some(max)
    requires w.pos < size && (w.AtHeader(m) ==> GoesOn(m, size, w.pos))
    ensures !ok ==> w' == w && segs' == segs && (!fw.setOk(|w.vars|) || U32 <= max)
    ensures ok ==> Underway(m, size, onlyFirst, fw, w', query + 1, segs') && w.pos < w'.pos && w'.i <= w.i + 1
  {
    hide Underway, GoesOn, HowMany, Left, ListSizeAt, SigSizeAt, Contents, EndOf;
    var list := ListOf(m, w);
    var room := if fw.nameSize(w.i) < max then max - fw.nameSize(w.i) else 0;
    var howmany := HowMany(room, Left(m, list, At(m, w)), SigSizeAt(m, list));
    if howmany == 0 {
      segs' := PassOver(m, size, onlyFirst, fw, w, query, segs);
      return true, AfterList(m, w), segs';
    }
    var run := RunOf(m, w, query, onlyFirst, howmany);
    if run.kind == SkippedFirst {
      segs' := TakeRun(m, size, onlyFirst, fw, w, query, segs, howmany);
      return true, AfterRun(m, w, run), segs';
    }
    RunFits(room, Left(m, list, At(m, w)), SigSizeAt(m, list));
    var data := MirrorOneEsl(m, run, howmany);
    if data.None? || !fw.setOk(|w.vars|) {
      return false, w, segs;
    }
    segs' := TakeRun(m, size, onlyFirst, fw, w, query, segs, howmany);
    return true, Walk(run.to, true, list, w.i + 1, w.vars + [Variable(w.i, data.value)]), segs';
  }

  lemma {:induction false} RunFits(room: nat, left: nat, sig: nat)
    requires 0 < sig
    ensures var n := HowMany(room, left, sig); n != 0 ==> LIST_HEADER + n * sig <= room && n * sig <= left
  {
    hide Divided;
    var n := HowMany(room, left, sig);
    if n != 0 {
      QuotientAtMost(room - LIST_HEADER, sig, n);
      QuotientAtMost(left, sig, n);
    }
  }

  /** The loop's test, in 64 bits. */
  predicate Enough(size: nat, pos: nat) { MIN_SIZE <= (size - pos) % U64 }

  /** The loop stops before a list or inside one. */
  predicate Stops(m: Memory, size: nat, w: Walk)
  {
    !Enough(size, w.pos) || size <= At(m, w) || !Usable(m, ListOf(m, w))
  }

  lemma {:induction false} EnoughIff(size: nat, pos: nat)
    requires pos <= size < U64
    ensures Enough(size, pos) <==> pos + MIN_SIZE <= size
  {
  }

  lemma {:induction false} StopsWhere(m: Memory, size: nat, onlyFirst: bool, fw: Firmware, w: Walk, query: nat,
                                      segs: seq<Segment>)
    requires Underway(m, size, onlyFirst, fw, w, query, segs) && size < U64
    ensures Stops(m, size, w) && w.pos < size ==> size < w.pos + MIN_SIZE || !Usable(m, w.pos)
    ensures Stops(m, size, w) && w.i == 0 ==> !GoesOn(m, size, w.pos)
    ensures !Stops(m, size, w) ==> w.pos < size && (w.AtHeader(m) ==> GoesOn(m, size, w.pos))
  {
    hide Done, Runs, FirstOf, FirstPlace, Usable, Enough, Within, EndOf;
    if w.pos <= size {
      EnoughIff(size, w.pos);
    }
  }

  /** One pass of `mirror_mok_db` over any data too large for one variable. */
  method MirrorPass(m: Memory, size: nat, onlyFirst: bool, fw: Firmware)
    returns (status: Status, vars: seq<Variable>, ghost segs: seq<Segment>, ghost at: nat)
    requires size < U64
    ensures Done(m, fw, segs, onlyFirst, at, vars) && InData(segs, size) && TailLast(segs) &&
            (onlyFirst ==> Runs(segs) <= 1)
    ensures status.Success? ==> size <= at && TailFair(m, segs, onlyFirst, size) && FirstIs(m, size, fw, segs)
    ensures (forall k :: fw.reported(k).Some? && fw.reported(k).value < U32 && fw.setOk(k)) ==> status.Success?
  {
    hide Underway, Done, Runs, FirstOf, FirstPlace, Usable, Stops, Fair, FirstIs, TailFair;
    segs := [];
    var w, query := Walk(0, false, 0, 0, []), 1;
    UnderwayStarts(m, size, onlyFirst, fw);
    StopsWhere(m, size, onlyFirst, fw, w, query, segs);
    while !Stops(m, size, w) && !(onlyFirst && w.i == 1)
      invariant Underway(m, size, onlyFirst, fw, w, query, segs) && (onlyFirst ==> w.i <= 1)
      decreases size - w.pos
    {
      StopsWhere(m, size, onlyFirst, fw, w, query, segs);
      var max := fw.reported(query);
      if max.None? {
        UnderwayDone(m, size, onlyFirst, fw, w, query, segs);
        return LoadError, w.vars, segs, w.pos;
      }
      NotStopped(m, size, w);
      var ok;
      ok, w, segs := Take(m, size, onlyFirst, fw, w, query, max.value, segs);
      if !ok {
        UnderwayDone(m, size, onlyFirst, fw, w, query, segs);
        return LoadError, w.vars, segs, w.pos;
      }
      query := query + 1;
    }
    UnderwayDone(m, size, onlyFirst, fw, w, query, segs);
    StopsWhere(m, size, onlyFirst, fw, w, query, segs);
    FirstFound(m, size, onlyFirst, fw, w, query, segs);
    if w.pos < size {
      Finish(m, fw, segs, onlyFirst, w.vars, w.pos, size);
      FirstStays(m, size, fw, segs, segs + [Segment(Tail, w.pos, size, 0, 0, w.i)]);
      segs := segs + [Segment(Tail, w.pos, size, 0, 0, w.i)];
      return Success, w.vars, segs, size;
    }
    NoTailFair(m, segs, onlyFirst, size);
    return Success, w.vars, segs, w.pos;
  }

  lemma NotStopped(m: Memory, size: nat, w: Walk)
    requires !Stops(m, size, w)
    ensures Usable(m, ListOf(m, w))
  {
  }

  lemma NoTailFair(m: Memory, segs: seq<Segment>, onlyFirst: bool, size: nat)
    requires NoTail(segs)
    ensures TailFair(m, segs, onlyFirst, size)
  {
  }

  lemma FirstStays(m: Memory, size: nat, fw: Firmware, segs: seq<Segment>, segs': seq<Segment>)
    requires FirstIs(m, size, fw, segs) && FirstOf(segs') == FirstOf(segs)
    ensures FirstIs(m, size, fw, segs')
  {
  }

  lemma {:induction false} UnderwayStarts(m: Memory, size: nat, onlyFirst: bool, fw: Firmware)
    ensures Underway(m, size, onlyFirst, fw, Walk(0, false, 0, 0, []), 1, [])
  {
    hide FirstPlace;
  }

  lemma {:induction false} UnderwayDone(m: Memory, size: nat, onlyFirst: bool, fw: Firmware, w: Walk, query: nat,
                                        segs: seq<Segment>)
    requires Underway(m, size, onlyFirst, fw, w, query, segs)
    ensures NoTail(segs) && InData(segs, size) && Done(m, fw, segs, onlyFirst, w.pos, w.vars) && w.i == Runs(segs)
  {
    hide FirstPlace, Done;
  }

  /** The first run, if there is one, is where a signature fits first; and there is none only if nothing fits. */
  predicate FirstIs(m: Memory, size: nat, fw: Firmware, segs: seq<Segment>)
  {
    match FirstPlace(m, size, fw, 0, 1)
    case None => FirstOf(segs) == None
    case Some(p) => FirstOf(segs).Some? && RunAt(m, fw, FirstOf(segs).value, p)
  }

  lemma {:induction false} FirstFound(m: Memory, size: nat, onlyFirst: bool, fw: Firmware, w: Walk, query: nat,
                                      segs: seq<Segment>)
    requires Underway(m, size, onlyFirst, fw, w, query, segs)
    requires w.i == 0 ==> !GoesOn(m, size, w.pos)
    ensures FirstIs(m, size, fw, segs)
  {
    hide Done, Runs, FirstOf, Usable;
  }

  // ----- what a pass keeps

  function Covered(m: Memory, segs: seq<Segment>): (b: seq<Byte>)
  {
    if segs == [] then []
    else
      var last := segs[|segs| - 1];
      Covered(m, segs[..|segs| - 1]) + if last.from <= last.to <= |m.data| then m.data[last.from..last.to] else []
  }

  /** The segments account for every byte, once and in order. */
  lemma {:induction false} EveryByteOnce(m: Memory, segs: seq<Segment>, end: nat)
    requires Tiles(segs, end) && end <= |m.data|
    ensures Covered(m, segs) == m.data[..end]
  {
    if segs != [] {
      var last := segs[|segs| - 1];
      EveryByteOnce(m, segs[..|segs| - 1], last.from);
      assert m.data[..end] == m.data[..last.from] + m.data[last.from..end];
    }
  }

  /** Later segments start where earlier ones have ended. */
  lemma {:induction false} SegmentsApart(segs: seq<Segment>, end: nat, i: nat, j: nat)
    requires Tiles(segs, end) && i < j < |segs|
    ensures segs[i].to <= segs[j].from <= segs[j].to <= end
  {
    var n := |segs| - 1;
    var before := segs[..n];
    if j < n {
      SegmentsApart(before, segs[n].from, i, j);
    } else if i < n - 1 {
      SegmentsApart(before, segs[n].from, i, n - 1);
    }
  }

  /** Every variable is a list made from one run of one list, and fits the size
      just reported with its own name counted. */
  lemma {:induction false} VariableFits(m: Memory, fw: Firmware, segs: seq<Segment>, v: Variable) returns (i: nat)
    requires AllFair(m, fw, segs) && v in Variables(m, segs)
    ensures i < |segs| && segs[i].kind == Created && segs[i].index == v.index && v.data == Contents(m, segs[i])
    ensures |v.data| == LIST_HEADER + (segs[i].to - segs[i].from) <= Room(fw, segs[i].query, v.index)
  {
    hide Fair, Contents, Room;
    var n := |segs| - 1;
    var last, before := segs[n], segs[..n];
    if last.kind == Created && v == Variable(last.index, Contents(m, last)) {
      assert Fair(m, fw, segs[n]);
      ContentsFit(m, fw, last);
      i := n;
    } else {
      assert AllFair(m, fw, before) by {
        assert forall k :: 0 <= k < n ==> before[k] == segs[k];
      }
      i := VariableFits(m, fw, before, v);
    }
  }

  lemma {:induction false} ContentsFit(m: Memory, fw: Firmware, s: Segment)
    requires Fair(m, fw, s) && s.kind == Created
    ensures |Contents(m, s)| == LIST_HEADER + (s.to - s.from) <= Room(fw, s.query, s.index)
  {
    hide HowMany, Room, Left, Memory.Slice, TypeAt, SigSizeAt, ListSizeAt;
    RunFits(Room(fw, s.query, s.index), Left(m, s.list, s.from), SigSizeAt(m, s.list));
  }

  // ----- complete lists

  /** Where the walk stands in a database of complete lists. */
  predicate Standing(m: Memory, size: nat, list: Option<nat>, pos: nat)
  {
    match list
    case None => pos <= size && Chain(m, pos, size)
    case Some(l) =>
      && l + LIST_HEADER <= pos < EndOf(m, l) <= size && Whole(EndOf(m, l) - pos, SigSizeAt(m, l))
      && Chain(m, EndOf(m, l), size)
  }

  /** What is true of a segment when every list is complete: a run stays in its list and is
      as large as room and list allow, and a list is passed over only if not one signature fits. */
  predicate InList(m: Memory, fw: Firmware, s: Segment)
  {
    var end, sig, room := EndOf(m, s.list), SigSizeAt(m, s.list), Room(fw, s.query, s.index);
    && (s.IsRun() ==>
          && s.from <= s.to <= end && Whole(s.to - s.from, sig) && LIST_HEADER + (s.to - s.from) <= room
          && (s.to == end || room < LIST_HEADER + (s.to - s.from) + sig))
    && (s.kind == NoRoom ==> room < LIST_HEADER + sig)
  }

  /** One segment more. */
  lemma {:induction false} StandingStep(m: Memory, fw: Firmware, size: nat, before: Option<nat>, s: Segment)
    requires Fair(m, fw, s) && s.kind != Tail && s.from < size && Standing(m, size, before, s.from)
    requires s.IsRun() || (s.kind == NoRoom && s.from != s.list) ==> before == Some(s.list)
    requires s.kind == ListHeader || (s.kind == NoRoom && s.from == s.list) ==> before == None
    ensures Standing(m, size,
                     if s.kind == ListHeader || (s.IsRun() && s.to < EndOf(m, s.list)) then Some(s.list) else None,
                     s.to)
    ensures InList(m, fw, s)
  {
    hide Whole, HowMany, Room, ListSizeAt, SigSizeAt;
    var end, sig, room := EndOf(m, s.list), SigSizeAt(m, s.list), Room(fw, s.query, s.index);
    if s.kind != ListHeader {
      var at := if s.from == s.list then s.from + LIST_HEADER else s.from;
      assert Left(m, s.list, at) == end - at;
      HowManyFit(room, end - at, sig);
    }
  }

  /** In a database of complete lists every segment stays in its list, and so the pass ends with the data. */
  lemma {:induction false} CompleteLists(m: Memory, fw: Firmware, segs: seq<Segment>, end: nat, size: nat, i: nat)
    requires Chain(m, 0, size) && AllFair(m, fw, segs) && Tiles(segs, end) && Linked(m, segs) && InData(segs, size) &&
             TailLast(segs)
    ensures NoTail(segs) ==> Standing(m, size, Within(m, segs), end) && end <= size
    ensures i < |segs| ==> InList(m, fw, segs[i])
    decreases |segs|
  {
    hide Fair, Chain, Standing, InList, Within;
    if segs == [] {
      StandingStart(m, size);
    } else {
      var n := |segs| - 1;
      var before := segs[..n];
      assert forall k :: 0 <= k < n ==> before[k] == segs[k];
      CompleteLists(m, fw, before, segs[n].from, size, i);
      assert Fair(m, fw, segs[n]);
      if segs[n].kind == Tail {
        TailInList(m, fw, segs[n]);
      } else {
        StandingStep(m, fw, size, Within(m, before), segs[n]);
        WithinLast(m, segs);
        StandingInside(m, size, Within(m, segs), end);
      }
    }
  }

  lemma StandingInside(m: Memory, size: nat, list: Option<nat>, pos: nat)
    requires Standing(m, size, list, pos)
    ensures pos <= size
  {
  }

  lemma TailInList(m: Memory, fw: Firmware, s: Segment)
    requires s.kind == Tail
    ensures InList(m, fw, s)
  {
  }

  lemma StandingStart(m: Memory, size: nat)
    requires Chain(m, 0, size)
    ensures Standing(m, size, Within(m, []), 0)
  {
  }

  lemma WithinLast(m: Memory, segs: seq<Segment>)
    requires segs != []
    ensures var s := segs[|segs| - 1];
            Within(m, segs) ==
              if s.kind == ListHeader || (s.IsRun() && s.to < EndOf(m, s.list)) then Some(s.list) else None
  {
  }

  // ----- both passes

  /** The first run of a pass has number 0, and no other run has. */
  lemma {:induction false} FirstIsNumberZero(m: Memory, segs: seq<Segment>, onlyFirst: bool, i: nat)
    requires Numbered(segs, onlyFirst) && i < |segs| && segs[i].IsRun()
    ensures FirstOf(segs).Some? && segs[i].index < Runs(segs)
    ensures segs[i].index == 0 ==> FirstOf(segs) == Some(segs[i])
    ensures FirstOf(segs).value in segs && FirstOf(segs).value.IsRun()
    ensures FirstOf(segs).value.kind == if onlyFirst then Created else SkippedFirst
    decreases |segs|
  {
    hide Runs, Numbered, FirstOf;
    var n := |segs| - 1;
    var before := segs[..n];
    Unfold(m, segs, 0, onlyFirst);
    assert segs[n] in segs;
    if i < n {
      FirstIsNumberZero(m, before, onlyFirst, i);
      assert before[i] == segs[i];
    } else {
      NoRunYet(m, before, onlyFirst);
    }
  }

  lemma {:induction false} NoRunYet(m: Memory, segs: seq<Segment>, onlyFirst: bool)
    requires Numbered(segs, onlyFirst)
    ensures FirstOf(segs).None? <==> Runs(segs) == 0
    ensures FirstOf(segs).Some? ==>
              && FirstOf(segs).value in segs && FirstOf(segs).value.IsRun() && FirstOf(segs).value.index == 0
              && FirstOf(segs).value.kind == if onlyFirst then Created else SkippedFirst
    decreases |segs|
  {
    if segs != [] {
      var n := |segs| - 1;
      NoRunYet(m, segs[..n], onlyFirst);
      assert segs[n] in segs;
      assert forall s :: s in segs[..n] ==> s in segs;
    }
  }

  /** A stretch of the database stands in a variable of the first pass. */
  predicate Stored(segs: seq<Segment>, s: Segment)
  {
    exists r :: r in segs && r.kind == Created && r.from <= s.from && s.to <= r.to
  }

  predicate NothingLost(segs1: seq<Segment>, segs2: seq<Segment>)
  {
    forall s :: s in segs2 && s.kind == SkippedFirst ==> Stored(segs1, s)
  }

  /** Two walks for a first place meet the same lists, so they find the same list or disjoint ones. */
  lemma {:induction false} PlacesApart(m: Memory, size: nat, fw1: Firmware, fw2: Firmware, pos: nat, query: nat)
    ensures var p1, p2 := FirstPlace(m, size, fw1, pos, query), FirstPlace(m, size, fw2, pos, query);
            && (p1.Some? ==> pos <= p1.value.list) && (p2.Some? ==> pos <= p2.value.list)
            && (p1.Some? && p2.Some? ==>
                  || p1.value == p2.value || EndOf(m, p1.value.list) <= p2.value.list
                  || EndOf(m, p2.value.list) <= p1.value.list)
    decreases if pos < size then size - pos else 0
  {
    hide FitsAt;
    if GoesOn(m, size, pos) {
      PlacesApart(m, size, fw1, fw2, EndOf(m, pos), query + 1);
    }
  }

  /** The run of whole signatures that fits at `p2` is part of the one that fits at `p1`. */
  predicate Reaches(m: Memory, fw1: Firmware, p1: Place, fw2: Firmware, p2: Place)
    requires Usable(m, p1.list) && Usable(m, p2.list)
  {
    && p1.list <= p2.list
    && p2.list + FitsAt(m, fw2, p2) * SigSizeAt(m, p2.list) <= p1.list + FitsAt(m, fw1, p1) * SigSizeAt(m, p1.list)
  }

  /** The run that the second pass skips stands in the first pass's variable if and only if
      nothing is skipped, or the first place of the first pass reaches over that of
      the second.  Where the first list is at least as large as its header, that is:
      both passes find their first list at the same place, and the second one finds
      room for no more of it.  The condition is about what the firmware reports and
      the lengths of the names. */
  lemma {:induction false} NothingLostIff(m: Memory, size: nat, fw1: Firmware, segs1: seq<Segment>,
                                          fw2: Firmware, segs2: seq<Segment>)
    requires Numbered(segs1, true) && Runs(segs1) <= 1 && FirstIs(m, size, fw1, segs1)
    requires Numbered(segs2, false) && FirstIs(m, size, fw2, segs2)
    ensures var p1, p2 := FirstPlace(m, size, fw1, 0, 1), FirstPlace(m, size, fw2, 0, 1);
            && (NothingLost(segs1, segs2) <==> (p2.Some? ==> p1.Some? && Reaches(m, fw1, p1.value, fw2, p2.value)))
            && (p1.Some? && p2.Some? && LIST_HEADER <= ListSizeAt(m, p1.value.list) ==>
                  (Reaches(m, fw1, p1.value, fw2, p2.value) <==>
                     p1 == p2 && FitsAt(m, fw2, p2.value) <= FitsAt(m, fw1, p1.value)))
  {
    hide FirstPlace, Runs, Numbered, FirstOf, FitsAt, SigSizeAt, ListSizeAt, Reaches;
    var p1, p2 := FirstPlace(m, size, fw1, 0, 1), FirstPlace(m, size, fw2, 0, 1);
    NoRunYet(m, segs1, true);
    NoRunYet(m, segs2, false);
    forall s | s in segs2 && s.kind == SkippedFirst ensures FirstOf(segs2) == Some(s) {
      var i :| 0 <= i < |segs2| && segs2[i] == s;
      SkippedIsFirst(m, segs2, i);
    }
    forall r | r in segs1 && r.kind == Created ensures FirstOf(segs1) == Some(r) {
      var i :| 0 <= i < |segs1| && segs1[i] == r;
      FirstIsNumberZero(m, segs1, true, i);
    }
    PlacesApart(m, size, fw1, fw2, 0, 1);
    if p2.Some? && p1.Some? {
      RunsCompare(m, fw1, fw2, FirstOf(segs1).value, FirstOf(segs2).value, p1.value, p2.value);
      if LIST_HEADER <= ListSizeAt(m, p1.value.list) {
        SamePlace(m, fw1, fw2, p1.value, p2.value);
      }
    }
  }

  lemma {:induction false} SkippedIsFirst(m: Memory, segs: seq<Segment>, i: nat)
    requires Numbered(segs, false) && i < |segs| && segs[i].kind == SkippedFirst
    ensures FirstOf(segs) == Some(segs[i])
    decreases |segs|
  {
    var n := |segs| - 1;
    if i < n {
      SkippedIsFirst(m, segs[..n], i);
    } else {
      NoRunYet(m, segs[..n], false);
    }
  }

  lemma {:induction false} RunsCompare(m: Memory, fw1: Firmware, fw2: Firmware, r: Segment, s: Segment, p1: Place,
                                       p2: Place)
    requires RunAt(m, fw1, r, p1) && RunAt(m, fw2, s, p2)
    ensures (r.from <= s.from && s.to <= r.to) <==> Reaches(m, fw1, p1, fw2, p2)
  {
    hide SigSizeAt, ListSizeAt, FitsAt;
  }

  lemma {:induction false} SamePlace(m: Memory, fw1: Firmware, fw2: Firmware, p1: Place, p2: Place)
    requires Usable(m, p1.list) && Usable(m, p2.list) && LIST_HEADER <= ListSizeAt(m, p1.list)
    requires FitsAt(m, fw2, p2) != 0
    requires p1 == p2 || EndOf(m, p1.list) <= p2.list || EndOf(m, p2.list) <= p1.list
    ensures Reaches(m, fw1, p1, fw2, p2) <==> p1 == p2 && FitsAt(m, fw2, p2) <= FitsAt(m, fw1, p1)
  {
    hide SigSizeAt, ListSizeAt, FitsAt;
    Quotients(FitsAt(m, fw2, p2), SigSizeAt(m, p2.list));
    FirstRunInList(m, fw1, p1);
    Factors(FitsAt(m, fw2, p2), FitsAt(m, fw1, p1), SigSizeAt(m, p1.list));
  }

  lemma {:induction false} Factors(a: nat, b: nat, size: nat)
    requires 0 < size
    ensures a * size <= b * size <==> a <= b
  {
    if a <= b {
      MulMonotone(a, b, size);
    } else {
      MulMonotone(b + 1, a, size);
    }
  }

  lemma {:induction false} FirstRunInList(m: Memory, fw: Firmware, p: Place)
    requires Usable(m, p.list) && LIST_HEADER <= ListSizeAt(m, p.list)
    ensures p.list + LIST_HEADER + FitsAt(m, fw, p) * SigSizeAt(m, p.list) <= EndOf(m, p.list)
  {
    hide SigSizeAt, ListSizeAt, HowMany, Room;
    RunFits(Room(fw, p.query, 0), Left(m, p.list, p.list + LIST_HEADER), SigSizeAt(m, p.list));
    LeftIs(m, p.list);
  }

  lemma LeftIs(m: Memory, list: nat)
    requires LIST_HEADER <= ListSizeAt(m, list)
    ensures Left(m, list, list + LIST_HEADER) == ListSizeAt(m, list) - LIST_HEADER
  {
  }

  /** A list whose only signature fits under the plain name and not under the
      longer numbered one: the first run of the next list is lost. */
  lemma {:induction false} LongerNameLoses(m: Memory, fw1: Firmware, segs1: seq<Segment>, fw2: Firmware,
                                           segs2: seq<Segment>)
    requires ListSizeAt(m, 0) == 179 && SigSizeAt(m, 0) == 151 && ListSizeAt(m, 179) == 124 && SigSizeAt(m, 179) == 48
    requires (forall k :: fw1.reported(k) == fw2.reported(k) == Some(200)) && fw1.nameSize(0) == 20 &&
             fw2.nameSize(0) == 22
    requires Numbered(segs1, true) && Runs(segs1) <= 1 && FirstIs(m, 303, fw1, segs1)
    requires Numbered(segs2, false) && FirstIs(m, 303, fw2, segs2)
    ensures !NothingLost(segs1, segs2)
  {
    hide ListSizeAt, SigSizeAt, Numbered, Runs, NothingLost, FirstIs;
    Quotient(152, 151, 1, 1);
    Quotient(151, 151, 1, 0);
    assert FitsAt(m, fw1, Place(0, 1)) == 1;
    assert FirstPlace(m, 303, fw1, 0, 1) == Some(Place(0, 1));
    Quotient(150, 151, 0, 150);
    assert FitsAt(m, fw2, Place(0, 1)) == 0;
    Quotient(150, 48, 3, 6);
    Quotient(96, 48, 2, 0);
    assert FitsAt(m, fw2, Place(179, 2)) == 2;
    assert FirstPlace(m, 303, fw2, 179, 2) == Some(Place(179, 2));
    assert FirstPlace(m, 303, fw2, 0, 1) == FirstPlace(m, 303, fw2, 179, 2);
    NothingLostIff(m, 303, fw1, segs1, fw2, segs2);
  }
}
