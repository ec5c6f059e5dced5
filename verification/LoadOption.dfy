/** EFI_LOAD_OPTION data (section 3.1.3 of the UEFI Specification 2.8): written
    by `add_boot_option` in fallback.c, read by load-options.c. */
module LoadOption {
  import opened Bytes

  // ----- what is written

  /** A device path node other than the final one. */
  datatype PathNode = PathNode(kind: Byte, subkind: Byte, body: seq<Byte>)

  const END_NODE: seq<Byte> := [0x7f, 0xff, 4, 0]

  predicate IsNode(n: PathNode)
  {
    4 + |n.body| < U16 && !(n.kind == 0x7f && n.subkind == 0xff)
  }

  function EncodeNode(n: PathNode): (s: seq<Byte>)
    requires 4 + |n.body| < U16
    ensures |s| == 4 + |n.body|
  {
    [n.kind, n.subkind] + (Le16(4 + |n.body|) + n.body)
  }

  predicate IsPath(ns: seq<PathNode>)
  {
    forall i :: 0 <= i < |ns| ==> IsNode(ns[i])
  }

  /** A device path: its nodes, then one end node. */
  function EncodePath(ns: seq<PathNode>): (s: seq<Byte>)
    requires IsPath(ns)
    ensures 4 <= |s|
  {
    if ns == [] then END_NODE else EncodeNode(ns[0]) + EncodePath(ns[1..])
  }

  /** A CHAR16 string without its NUL. */
  predicate IsString(s: seq<Word16>)
  {
    forall i :: 0 <= i < |s| ==> s[i] != 0
  }

  /** Argument bytes: the string and its NUL, or nothing for no arguments. */
  function ArgBytes(args: seq<Word16>): (b: seq<Byte>)
  {
    if args == [] then [] else Le16s(args) + [0, 0]
  }

  function OptionBytes(title: seq<Word16>, path: seq<Byte>, args: seq<Word16>): (b: seq<Byte>)
    requires |path| < U16
    ensures |b| == 8 + 2 * |title| + |path| + |ArgBytes(args)|
  {
    (Le32(1) + Le16(|path|)) + ((Le16s(title) + [0, 0]) + (path + ArgBytes(args)))
  }

  /** Writes at the cursor, extending what has been written so far. */
  method Put(buf: array<Byte>, at: nat, s: seq<Byte>)
    requires at + |s| <= buf.Length
    modifies buf
    ensures buf[..at + |s|] == old(buf[..at]) + s
  {
    forall k | 0 <= k < |s| {
      buf[at + k] := s[k];
    }
  }

  lemma {:induction false} Nest(a: seq<Byte>, b: seq<Byte>, c: seq<Byte>, d: seq<Byte>, e: seq<Byte>)
    ensures a + b + c + d + e == (a + b) + (c + (d + e))
  {
    Assoc(a + b, c, d);
    Assoc(a + b, c + d, e);
    Assoc(c, d, e);
  }

  /** The terminator that is copied but not counted is the only difference. */
  lemma {:induction false} ArgsCounted(before: seq<Byte>, args: seq<Word16>)
    ensures (before + (Le16s(args) + [0, 0]))[..|before| + |ArgBytes(args)|] == before + ArgBytes(args)
  {
    if args != [] {
      assert Le16s(args) + [0, 0] == ArgBytes(args);
      assert (before + ArgBytes(args))[..|before| + |ArgBytes(args)|] == before + ArgBytes(args);
    } else {
      assert (before + (Le16s(args) + [0, 0]))[..|before|] == before;
    }
  }

  lemma OptionIs(title: seq<Word16>, path: seq<Byte>, args: seq<Word16>)
    requires |path| < U16
    ensures OptionBytes(title, path, args) ==
              (Le32(1) + Le16(|path|)) + ((Le16s(title) + [0, 0]) + (path + ArgBytes(args)))
  {
  }

  /** Attributes, path length, title and path. */
  method PutHead(buf: array<Byte>, title: seq<Word16>, path: seq<Byte>) returns (cursor: nat)
    requires |path| < U16 && 8 + 2 * |title| + |path| <= buf.Length
    modifies buf
    ensures cursor == 8 + 2 * |title| + |path|
    ensures buf[..cursor] == Le32(1) + Le16(|path|) + (Le16s(title) + [0, 0]) + path
  {
    hide Le16s, Le32, Le16;
    cursor := 0;
    Put(buf, cursor, Le32(1));
    cursor := cursor + 4;
    assert buf[..cursor] == Le32(1);
    Put(buf, cursor, Le16(|path|));
    cursor := cursor + 2;
    Put(buf, cursor, Le16s(title) + [0, 0]);
    cursor := cursor + (|title| * 2 + 2);
    Put(buf, cursor, path);
    cursor := cursor + |path|;
  }

  /** Moves a cursor through a buffer that has room for one more NUL than is
      counted: an empty argument string still copies its terminator. */
  method BuildOption(title: seq<Word16>, path: seq<Byte>, args: seq<Word16>) returns (data: seq<Byte>)
    requires |path| < U16
    ensures data == OptionBytes(title, path, args)
  {
    hide Le16s, Le32, Le16, OptionBytes;
    var argSize := if |args| != 0 then |args| * 2 + 2 else 0;
    var size := 4 + 2 + |title| * 2 + 2 + |path| + argSize;
    var buf := new Byte[size + 2](_ => 0);
    var cursor := PutHead(buf, title, path);
    ghost var before := buf[..cursor];
    Put(buf, cursor, Le16s(args) + [0, 0]);
    data := buf[..size];
    assert data == buf[..cursor + (2 * |args| + 2)][..size];
    ArgsCounted(before, args);
    Nest(Le32(1), Le16(|path|), Le16s(title) + [0, 0], path, ArgBytes(args));
    OptionIs(title, path, args);
  }

  // ----- what is read

  /** Optional data at an offset, none, a rejected option, or a node walk that never comes to an end. */
  datatype Read = Found(at: nat, size: nat) | Nothing | Invalid | Endless

  /** One past the description's NUL, or nothing if it is not plain UCS-2. */
  function DescriptionEnd(m: Memory, cur: nat, i: nat, limit: nat): (r: Option<nat>)
    ensures r.Some? ==> r.value <= limit
    decreases if i < limit then limit - i else 0
  {
    if limit <= i then None
    else if i % 2 != 0 then (if m.At(cur + i) != 0 then None else DescriptionEnd(m, cur, i + 1, limit))
    else if m.At(cur + i) == 0 then (if limit <= i + 1 || m.At(cur + i + 1) != 0 then None else Some(i + 2))
    else DescriptionEnd(m, cur, i + 1, limit)
  }

  datatype Walk = Ended(at: nat) | BadNode | Forever

  /** `limit - i` in 32 bits: a node that reaches past the limit leaves almost
      four gigabytes to go. */
  function Rest(limit: nat, i: nat): (n: int)
  {
    if i <= limit then limit - i else U32 + limit - i
  }

  /** A byte of a node's header; the index wraps as well. */
  function HeaderByte(m: Memory, cur: nat, i: nat, k: nat): (b: Byte)
  {
    m.At(cur + (i + k) % U32)
  }

  function NodeLength(m: Memory, cur: nat, i: nat): (n: nat)
  {
    HeaderByte(m, cur, i, 2) + 0x100 * HeaderByte(m, cur, i, 3)
  }

  predicate BadLength(m: Memory, cur: nat, i: nat, limit: nat)
  {
    NodeLength(m, cur, i) < 4 || limit < NodeLength(m, cur, i)
  }

  predicate EndsPath(m: Memory, cur: nat, i: nat)
  {
    HeaderByte(m, cur, i, 0) == 0x7f && HeaderByte(m, cur, i, 1) == 0xff
  }

  /** The counter of a walk that has come so far. */
  function Counter(t: nat): (i: nat)
    ensures i < U32
  {
    t % U32
  }

  lemma CounterNext(t: nat, len: nat)
    ensures (Counter(t) + len) % U32 == Counter(t + len)
  {
  }

  lemma CounterZero()
    ensures Counter(0) == 0
  {
  }

  /** At most so many nodes of a walk that has come `t` bytes far; its counter
      is that distance in 32 bits. */
  function PathEnd(m: Memory, cur: nat, t: nat, limit: nat, steps: nat): (w: Walk)
    decreases steps
  {
    var i := Counter(t);
    if Rest(limit, i) < 4 then Ended(t)
    else if steps == 0 then Forever
    else if BadLength(m, cur, i, limit) then BadNode
    else if EndsPath(m, cur, i) then (if NodeLength(m, cur, i) != 4 then BadNode else Ended(t + 4))
    else PathEnd(m, cur, t + NodeLength(m, cur, i), limit, steps - 1)
  }

  /** A walk that has left the option does not find its way back unless the
      counter wraps. */
  lemma {:induction false} NoWayBack(m: Memory, cur: nat, t: nat, limit: nat, steps: nat)
    requires limit < t
    ensures var w := PathEnd(m, cur, t, limit, steps);
            w.Ended? && w.at < U32 ==> limit < Counter(w.at)
    decreases steps
  {
    hide NodeLength, EndsPath;
    var i := Counter(t);
    if t < U32 && 4 <= Rest(limit, i) && 0 < steps && !BadLength(m, cur, i, limit) && !EndsPath(m, cur, i) {
      NoWayBack(m, cur, t + NodeLength(m, cur, i), limit, steps - 1);
    } else if U32 <= t {
      PathGrows(m, cur, t, limit, steps);
    }
  }

  lemma {:induction false} PathGrows(m: Memory, cur: nat, t: nat, limit: nat, steps: nat)
    ensures var w := PathEnd(m, cur, t, limit, steps); w.Ended? ==> t <= w.at
    decreases steps
  {
    hide NodeLength, EndsPath, BadLength, Rest;
    var i := Counter(t);
    if 4 <= Rest(limit, i) && 0 < steps && !BadLength(m, cur, i, limit) && !EndsPath(m, cur, i) {
      PathGrows(m, cur, t + NodeLength(m, cur, i), limit, steps - 1);
    }
  }

  // ----- a walk of four billion nodes has no end

  predicate Stops(m: Memory, cur: nat, t: nat, limit: nat)
  {
    var i := Counter(t);
    Rest(limit, i) < 4 || BadLength(m, cur, i, limit) || EndsPath(m, cur, i)
  }

  /** How far the walk has come after so many nodes. */
  function Distance(m: Memory, cur: nat, t: nat, k: nat): (d: nat)
  {
    if k == 0 then t
    else
      var d := Distance(m, cur, t, k - 1);
      d + NodeLength(m, cur, Counter(d))
  }

  lemma {:induction false} DistanceShift(m: Memory, cur: nat, t: nat, k: nat)
    ensures Distance(m, cur, t + NodeLength(m, cur, Counter(t)), k) == Distance(m, cur, t, k + 1)
  {
    hide NodeLength;
    if 0 < k {
      DistanceShift(m, cur, t, k - 1);
    }
  }

  lemma {:induction false} PathNext(m: Memory, cur: nat, t: nat, limit: nat, steps: nat)
    requires 0 < steps
    ensures PathEnd(m, cur, t, limit, steps) == Forever <==>
            !Stops(m, cur, t, limit) &&
            PathEnd(m, cur, t + NodeLength(m, cur, Counter(t)), limit, steps - 1) == Forever
  {
    hide NodeLength, BadLength, EndsPath, Rest;
  }

  /** The walk goes on for so many nodes. */
  ghost predicate Goes(m: Memory, cur: nat, t: nat, limit: nat, steps: nat)
  {
    forall k :: 0 <= k < steps ==> !Stops(m, cur, Distance(m, cur, t, k), limit)
  }

  lemma {:induction false} GoesNext(m: Memory, cur: nat, t: nat, limit: nat, steps: nat)
    requires 0 < steps
    ensures Goes(m, cur, t, limit, steps) <==>
            !Stops(m, cur, t, limit) && Goes(m, cur, t + NodeLength(m, cur, Counter(t)), limit, steps - 1)
  {
    hide NodeLength, Stops, Distance;
    var u := t + NodeLength(m, cur, Counter(t));
    DistanceNone(m, cur, t);
    forall k | 0 <= k < steps ensures Distance(m, cur, u, k) == Distance(m, cur, t, k + 1) {
      DistanceShift(m, cur, t, k);
    }
    if !Stops(m, cur, t, limit) && Goes(m, cur, u, limit, steps - 1) {
      forall k | 0 <= k < steps ensures !Stops(m, cur, Distance(m, cur, t, k), limit) {
        if 0 < k {
          DistanceShift(m, cur, t, k - 1);
          assert !Stops(m, cur, Distance(m, cur, u, k - 1), limit);
        }
      }
    }
  }

  lemma {:induction false} ForeverIff(m: Memory, cur: nat, t: nat, limit: nat, steps: nat)
    ensures PathEnd(m, cur, t, limit, steps) == Forever <==>
            Goes(m, cur, t, limit, steps) && 4 <= Rest(limit, Counter(Distance(m, cur, t, steps)))
    decreases steps
  {
    hide NodeLength, Rest, Distance, Stops, Goes;
    if steps == 0 {
      DistanceNone(m, cur, t);
      assert Goes(m, cur, t, limit, 0) by { GoesNone(m, cur, t, limit); }
    } else {
      hide PathEnd;
      PathNext(m, cur, t, limit, steps);
      GoesNext(m, cur, t, limit, steps);
      DistanceShift(m, cur, t, steps - 1);
      ForeverIff(m, cur, t + NodeLength(m, cur, Counter(t)), limit, steps - 1);
    }
  }

  lemma GoesNone(m: Memory, cur: nat, t: nat, limit: nat)
    ensures Goes(m, cur, t, limit, 0)
  {
  }

  lemma DistanceNone(m: Memory, cur: nat, t: nat)
    ensures Distance(m, cur, t, 0) == t
  {
  }

  /** More values than there is room for: two of them are the same. */
  lemma {:induction false} Twice(f: nat -> nat, n: nat) returns (a: nat, b: nat)
    requires forall k :: 0 <= k <= n ==> f(k) < n
    ensures a < b <= n && f(a) == f(b)
    decreases n
  {
    if i :| 0 <= i < n && f(i) == f(n) {
      return i, n;
    }
    // Without the last value: whatever took the top takes the last one's place.
    var last := f(n);
    var g: nat -> nat := k => if f(k) == n - 1 then last else f(k);
    a, b := Twice(g, n - 1);
  }

  lemma SameCounter(x: nat, y: nat, len: nat)
    requires Counter(x) == Counter(y)
    ensures (x + len) % U32 == (y + len) % U32
  {
  }

  lemma DistanceNext(m: Memory, cur: nat, t: nat, k: nat)
    ensures var d := Distance(m, cur, t, k); Distance(m, cur, t, k + 1) == d + NodeLength(m, cur, Counter(d))
  {
  }

  lemma {:induction false} Repeats(m: Memory, cur: nat, t: nat, a: nat, b: nat, j: nat)
    requires Counter(Distance(m, cur, t, a)) == Counter(Distance(m, cur, t, b))
    ensures Counter(Distance(m, cur, t, a + j)) == Counter(Distance(m, cur, t, b + j))
    decreases j
  {
    hide NodeLength, Distance;
    if 0 < j {
      var x, y := Distance(m, cur, t, a + (j - 1)), Distance(m, cur, t, b + (j - 1));
      Repeats(m, cur, t, a, b, j - 1);
      DistanceNext(m, cur, t, a + (j - 1));
      DistanceNext(m, cur, t, b + (j - 1));
      SameCounter(x, y, NodeLength(m, cur, Counter(x)));
    }
  }

  lemma {:induction false} EarlierTwin(m: Memory, cur: nat, t: nat, a: nat, b: nat, n: nat) returns (k: nat)
    requires a < b && Counter(Distance(m, cur, t, a)) == Counter(Distance(m, cur, t, b))
    ensures k < b && Counter(Distance(m, cur, t, k)) == Counter(Distance(m, cur, t, n))
    decreases n
  {
    hide Distance;
    if n < b {
      k := n;
    } else {
      Repeats(m, cur, t, a, b, n - b);
      k := EarlierTwin(m, cur, t, a, b, a + (n - b));
    }
  }

  /** A walk that has not ended after as many nodes as the counter has values
      does not end after any number of nodes. */
  lemma {:induction false} EndlessIff(m: Memory, cur: nat, limit: nat)
    ensures PathEnd(m, cur, 0, limit, U32) == Forever <==> forall n :: PathEnd(m, cur, 0, limit, n) == Forever
  {
    hide PathEnd, Distance;
    if PathEnd(m, cur, 0, limit, U32) == Forever {
      ForeverIff(m, cur, 0, limit, U32);
      var f: nat -> nat := k => Counter(Distance(m, cur, 0, k));
      var a, b := Twice(f, U32);
      forall n ensures PathEnd(m, cur, 0, limit, n) == Forever {
        forall k | 0 <= k <= n ensures !Stops(m, cur, Distance(m, cur, 0, k), limit) {
          var twin := EarlierTwin(m, cur, 0, a, b, k);
          assert !Stops(m, cur, Distance(m, cur, 0, twin), limit);
        }
        ForeverIff(m, cur, 0, limit, n);
      }
    }
  }

  function Optional(m: Memory): (r: Read)
  {
    var size, path := |m.data|, m.U16At(4);
    if size < 12 || size - 10 < path then Invalid
    else
      var limit := size - 6 - path;
      var d := DescriptionEnd(m, 6, 0, limit);
      if d.None? then Invalid
      else if d.value == limit then Nothing
      else
        var cur, rest := 6 + d.value, limit - d.value + path;
        match PathEnd(m, cur, 0, rest, U32)
        case BadNode => Invalid
        case Forever => Endless
        case Ended(t) => if path < Counter(t) then Invalid else Found(cur + path, rest - path)
  }

  method ScanDescription(m: Memory, cur: nat, limit: nat) returns (r: Option<nat>)
    ensures r == DescriptionEnd(m, cur, 0, limit)
  {
    var i := 0;
    while i < limit
      invariant i <= limit && DescriptionEnd(m, cur, i, limit) == DescriptionEnd(m, cur, 0, limit)
    {
      if i % 2 != 0 {
        if m.At(cur + i) != 0 {
          return None;
        }
      } else if m.At(cur + i) == 0 {
        i := i + 1;
        if limit <= i || m.At(cur + i) != 0 {
          return None;
        }
        break;
      }
      i := i + 1;
    }
    i := i + 1;
    if limit < i {
      return None;
    }
    return Some(i);
  }

  /** What the counter says of a walk. */
  function Narrow(w: Walk): (r: Walk)
  {
    if w.Ended? then Ended(Counter(w.at)) else w
  }

  method ScanPath(m: Memory, cur: nat, limit: nat) returns (w: Walk)
    ensures w == Narrow(PathEnd(m, cur, 0, limit, U32))
  {
    hide NodeLength, HeaderByte, Counter;
    CounterZero();
    var i: nat, steps: nat := 0, U32;
    ghost var t: nat := 0;
    while 4 <= Rest(limit, i)
      invariant i == Counter(t)
      invariant PathEnd(m, cur, t, limit, steps) == PathEnd(m, cur, 0, limit, U32)
      decreases steps
    {
      if steps == 0 {
        return Forever;
      }
      var len := NodeLength(m, cur, i);
      CounterNext(t, len);
      if len < 4 || limit < len {
        return BadNode;
      }
      if HeaderByte(m, cur, i, 0) == 0x7f && HeaderByte(m, cur, i, 1) == 0xff {
        if len != 4 {
          return BadNode;
        }
        i := (i + len) % U32;
        return Ended(i);
      }
      i, steps := (i + len) % U32, steps - 1;
      t := t + len;
    }
    return Ended(i);
  }

  /** `get_load_option_optional_data`. */
  method GetOptionalData(m: Memory) returns (r: Read)
    ensures r == Optional(m)
  {
    hide DescriptionEnd, PathEnd, Memory.U16At;
    if |m.data| < 12 {
      return Invalid;
    }
    var path := m.U16At(4);
    if |m.data| - 10 < path {
      return Invalid;
    }
    var limit := |m.data| - 6 - path;
    var d := ScanDescription(m, 6, limit);
    if d.None? {
      return Invalid;
    }
    if d.value == limit {
      return Nothing;
    }
    var cur := 6 + d.value;
    limit := limit - d.value + path;
    var w := ScanPath(m, cur, limit);
    if w.BadNode? {
      return Invalid;
    }
    if w.Forever? {
      return Endless;
    }
    if path < w.at {
      return Invalid;
    }
    return Found(cur + path, limit - path);
  }

  // ----- reading what was written

  predicate Latin1(s: seq<Word16>)
  {
    forall i :: 0 <= i < |s| ==> s[i] < 0x100
  }

  lemma {:induction false} TitleStep(m: Memory, cur: nat, i: nat, limit: nat, c: Word16)
    requires i % 2 == 0 && i + 2 < limit && c != 0 && Holds(m, cur + i, Le16(c))
    ensures DescriptionEnd(m, cur, i, limit) == if c < 0x100 then DescriptionEnd(m, cur, i + 2, limit) else None
  {
    assert m.data[cur + i..cur + i + 2] == [m.At(cur + i), m.At(cur + i + 1)];
  }

  lemma {:induction false} TitleStop(m: Memory, cur: nat, i: nat, limit: nat)
    requires i % 2 == 0 && i + 2 <= limit && Holds(m, cur + i, [0, 0])
    ensures DescriptionEnd(m, cur, i, limit) == Some(i + 2)
  {
    assert m.data[cur + i..cur + i + 2] == [m.At(cur + i), m.At(cur + i + 1)];
  }

  lemma {:induction false} Latin1Step(title: seq<Word16>)
    requires title != []
    ensures Latin1(title) <==> title[0] < 0x100 && Latin1(title[1..])
  {
    assert forall k :: 1 <= k < |title| ==> title[k] == title[1..][k - 1];
  }

  /** A title's bytes end where they should, unless some character needs more
      than eight bits. */
  lemma {:induction false} TitleScans(m: Memory, cur: nat, i: nat, limit: nat, title: seq<Word16>)
    requires IsString(title) && i % 2 == 0 && i + 2 * |title| + 2 <= limit
    requires Holds(m, cur + i, Le16s(title) + [0, 0])
    ensures DescriptionEnd(m, cur, i, limit) == if Latin1(title) then Some(i + 2 * |title| + 2) else None
    decreases |title|
  {
    hide DescriptionEnd, Holds, Le16, Latin1;
    if title == [] {
      assert Le16s(title) + [0, 0] == [0, 0];
      TitleStop(m, cur, i, limit);
      assert Latin1(title) by { Latin1Nil(); }
    } else {
      var c, rest := title[0], title[1..];
      Assoc(Le16(c), Le16s(rest), [0, 0]);
      HoldsParts(m, cur + i, Le16(c), Le16s(rest) + [0, 0]);
      TitleStep(m, cur, i, limit, c);
      TitleScans(m, cur, i + 2, limit, rest);
      Latin1Step(title);
    }
  }

  lemma Latin1Nil()
    ensures Latin1([])
  {
  }

  lemma {:induction false} PathStep(m: Memory, cur: nat, i: nat, limit: nat, steps: nat, n: PathNode)
    requires IsNode(n) && i + 4 + |n.body| <= limit && Holds(m, cur + i, EncodeNode(n))
    requires 0 < steps && i + 4 < U32
    ensures PathEnd(m, cur, i, limit, steps) == PathEnd(m, cur, i + 4 + |n.body|, limit, steps - 1)
  {
    hide Memory.U16At, Memory.At, Holds, EncodeNode, HeaderByte, NodeLength;
    NodeHeader(m, cur + i, n);
    HeaderRead(m, cur, i);
    assert i % U32 == i;
  }

  lemma HeaderRead(m: Memory, cur: nat, i: nat)
    requires i + 4 < U32
    ensures HeaderByte(m, cur, i, 0) == m.At(cur + i) && HeaderByte(m, cur, i, 1) == m.At(cur + i + 1)
    ensures NodeLength(m, cur, i) == m.U16At(cur + i + 2)
  {
  }

  lemma {:induction false} PathStop(m: Memory, cur: nat, i: nat, limit: nat, steps: nat)
    requires i + 4 <= limit && Holds(m, cur + i, END_NODE)
    requires 0 < steps && i + 4 < U32
    ensures PathEnd(m, cur, i, limit, steps) == Ended(i + 4)
  {
    hide Memory.U16At, Memory.At, Holds, EncodeNode, HeaderByte, NodeLength;
    HeaderRead(m, cur, i);
    assert i % U32 == i;
    var end := PathNode(0x7f, 0xff, []);
    assert EncodeNode(end) == END_NODE by { EndNode(); }
    NodeHeader(m, cur + i, end);
  }

  lemma EndNode()
    ensures EncodeNode(PathNode(0x7f, 0xff, [])) == END_NODE
  {
  }

  lemma {:induction false} PathScans(m: Memory, cur: nat, i: nat, limit: nat, steps: nat, ns: seq<PathNode>)
    requires IsPath(ns) && i + |EncodePath(ns)| <= limit && Holds(m, cur + i, EncodePath(ns))
    requires i + |EncodePath(ns)| < U32 && |EncodePath(ns)| <= steps
    ensures PathEnd(m, cur, i, limit, steps) == Ended(i + |EncodePath(ns)|)
    decreases |ns|
  {
    hide PathEnd, Holds, EncodeNode, IsNode;
    if ns == [] {
      PathStop(m, cur, i, limit, steps);
    } else {
      var n, rest := ns[0], ns[1..];
      assert IsNode(ns[0]) && 4 + |n.body| < U16 by { NodeSize(n); }
      HoldsParts(m, cur + i, EncodeNode(n), EncodePath(rest));
      PathStep(m, cur, i, limit, steps, n);
      PathScans(m, cur, i + 4 + |n.body|, limit, steps - 1, rest);
    }
  }

  lemma NodeSize(n: PathNode)
    requires IsNode(n)
    ensures 4 + |n.body| < U16
  {
  }

  lemma {:induction false} NodeHeader(m: Memory, at: nat, n: PathNode)
    requires 4 + |n.body| < U16 && Holds(m, at, EncodeNode(n))
    ensures m.At(at) == n.kind && m.At(at + 1) == n.subkind && m.U16At(at + 2) == 4 + |n.body|
  {
    HoldsParts(m, at, [n.kind, n.subkind], Le16(4 + |n.body|) + n.body);
    HoldsParts(m, at + 2, Le16(4 + |n.body|), n.body);
    ReadLe16(m, at + 2, 4 + |n.body|);
    assert m.data[at..at + 2][0] == n.kind && m.data[at..at + 2][1] == n.subkind;
  }

  lemma {:induction false} Parts(m: Memory, a: seq<Byte>, b: seq<Byte>, c: seq<Byte>, d: seq<Byte>, e: seq<Byte>,
                                 i: nat, j: nat, k: nat)
    requires m.data == (a + b) + (c + (d + e))
    requires i == |a| + |b| && j == i + |c| && k == j + |d|
    ensures Holds(m, |a|, b) && Holds(m, i, c) && Holds(m, j, d) && Holds(m, k, e)
  {
    assert Holds(m, 0, m.data) by {
      assert m.data[0..|m.data|] == m.data;
    }
    hide Holds;
    HoldsParts(m, 0, a + b, c + (d + e));
    HoldsParts(m, 0, a, b);
    HoldsParts(m, i, c, d + e);
    HoldsParts(m, j, d, e);
  }

  /** Where the parts of a written option stand. */
  lemma {:induction false} Layout(title: seq<Word16>, path: seq<Byte>, args: seq<Word16>, m: Memory)
    requires |path| < U16 && m.data == OptionBytes(title, path, args)
    ensures m.U16At(4) == |path|
    ensures Holds(m, 6, Le16s(title) + [0, 0])
    ensures Holds(m, 8 + 2 * |title|, path)
    ensures Holds(m, 8 + 2 * |title| + |path|, ArgBytes(args))
  {
    hide Memory.U16At, Le16s, Le16, Le32, ArgBytes, Holds;
    Parts(m, Le32(1), Le16(|path|), Le16s(title) + [0, 0], path, ArgBytes(args),
      6, 8 + 2 * |title|, 8 + 2 * |title| + |path|);
    ReadLe16(m, 4, |path|);
  }

  /** Reading back a written option gives exactly its argument bytes, or nothing
      when there were none, if and only if the title is Latin-1 and title and
      arguments are not both empty; otherwise the option is rejected. */
  lemma {:induction false} ReadsBack(title: seq<Word16>, ns: seq<PathNode>, args: seq<Word16>, beyond: nat -> Byte)
    requires IsString(title) && IsPath(ns) && |EncodePath(ns)| < U16
    ensures var path, extra := EncodePath(ns), ArgBytes(args);
            var m := Memory(OptionBytes(title, path, args), beyond);
            if !Latin1(title) || (title == [] && args == []) then Optional(m) == Invalid
            else if args == [] then Optional(m) == Nothing
            else Optional(m) == Found(8 + 2 * |title| + |path|, |extra|) &&
                 Holds(m, 8 + 2 * |title| + |path|, extra)
  {
    hide DescriptionEnd, PathEnd, Memory.U16At, EncodePath, Le16s, Holds, OptionBytes;
    var path, extra := EncodePath(ns), ArgBytes(args);
    var m := Memory(OptionBytes(title, path, args), beyond);
    Layout(title, path, args, m);
    if title != [] || args != [] {
      TitleScans(m, 6, 0, |m.data| - 6 - |path|, title);
      PathScans(m, 8 + 2 * |title|, 0, |path| + |extra|, U32, ns);
    }
  }

  /** What is left is a 32-bit difference. */
  lemma {:induction false} RestIs(limit: Word32, i: Word32)
    ensures Rest(limit, i) == (limit - i) % U32
  {
  }

  /** A path that reaches a node shorter than its header, longer than all that is left of the option at its start, or
      an end node that is longer than its header, makes the option invalid. */
  lemma {:induction false} BadNodeRejects(m: Memory, d: nat)
    requires 12 <= |m.data| < U32 && m.U16At(4) <= |m.data| - 10
    requires DescriptionEnd(m, 6, 0, |m.data| - 6 - m.U16At(4)) == Some(d) && d < |m.data| - 6 - m.U16At(4)
    requires var len, limit := m.U16At(6 + d + 2), |m.data| - 6 - d;
             4 <= limit &&
             (len < 4 || limit < len || (m.At(6 + d) == 0x7f && m.At(6 + d + 1) == 0xff && len != 4))
    ensures Optional(m) == Invalid
  {
    hide DescriptionEnd, Memory.U16At, Memory.At, HeaderByte, NodeLength;
    HeaderRead(m, 6 + d, 0);
    CounterZero();
    hide Counter;
  }
}
